/** bitcoin/target.go: targets and difficulties, over exact reals. */
module Targets {
  import opened Outcomes
  import opened Bytes

  const HIGHEST_TARGET: string := "00000000ffff" + "0000000000000" + "0000000000000" + "0000000000000" + "0000000000000"

  /** `v` times 16 to the power `n`. */
  function Shift(v: nat, n: nat): (r: nat)
    ensures r >= v
  {
    if n == 0 then v else 16 * Shift(v, n - 1)
  }

  function HighestTarget(): (m: nat)
    ensures m > 0
  {
    Shift(0xffff, 52)
  }

  /** `big.Int.SetString(s, 16)`: an optional sign, then at least one digit. */
  function ToBig(s: string): Option<int> {
    if s == "" then None
    else if s[0] == '-' then
      var v :- Digits(s[1..]);
      Some(-v)
    else if s[0] == '+' then Digits(s[1..])
    else Digits(s)
  }

  function Digits(s: string): Option<int> {
    if s == "" then None else DigitsToNat(s)
  }

  lemma {:induction false} HexTextLower(v: nat)
    ensures LowerHex(HexText(v))
  {
    if v >= 16 {
      HexTextLower(v / 16);
    }
  }

  /** The text of a target parses back to it. */
  lemma TargetTextRoundTrip(v: nat)
    ensures ToBig(HexText(v)) == Some(v)
  {
    TextToNat(v);
    HexTextLower(v);
    assert LowerDigit(HexText(v)[0]);
  }

  lemma {:induction false} ZeroDigits(s: string, v: nat, zeros: string)
    requires DigitsToNat(s) == Some(v) && forall i :: 0 <= i < |zeros| ==> zeros[i] == '0'
    ensures DigitsToNat(s + zeros) == Some(Shift(v, |zeros|))
  {
    if zeros == "" {
      assert s + zeros == s;
    } else {
      var front := zeros[..|zeros| - 1];
      ZeroDigits(s, v, front);
      Last(s + front, Shift(v, |front|), '0', 0);
      assert (s + front) + ['0'] == s + zeros;
    }
  }

  /** The constant the code parses is the number used here. */
  lemma HighestTargetParses()
    ensures ToBig(HIGHEST_TARGET) == Some(HighestTarget())
  {
    HighestDigits();
    var s, zeros := "00000000ffff", "0000000000000";
    ZeroRuns(s, 0xffff, zeros);
    SignFree(s, zeros);
  }

  lemma ZeroRuns(s: string, v: nat, zeros: string)
    requires DigitsToNat(s) == Some(v) && forall i :: 0 <= i < |zeros| ==> zeros[i] == '0'
    ensures DigitsToNat(s + zeros + zeros + zeros + zeros) == Some(Shift(v, 4 * |zeros|))
  {
    var n := |zeros|;
    ZeroDigits(s, v, zeros);
    ZeroDigits(s + zeros, Shift(v, n), zeros);
    ZeroDigits(s + zeros + zeros, Shift(Shift(v, n), n), zeros);
    ZeroDigits(s + zeros + zeros + zeros, Shift(Shift(Shift(v, n), n), n), zeros);
    ShiftTwice(v, n, n);
    ShiftTwice(v, 2 * n, n);
    ShiftTwice(v, 3 * n, n);
  }

  lemma SignFree(s: string, zeros: string)
    requires |s| > 0 && LowerDigit(s[0])
    ensures ToBig(s + zeros + zeros + zeros + zeros) == DigitsToNat(s + zeros + zeros + zeros + zeros)
  {
    assert (s + zeros + zeros + zeros + zeros)[0] == s[0];
  }

  lemma {:induction false} ShiftZero(n: nat)
    ensures Shift(0, n) == 0
  {
    if n > 0 {
      ShiftZero(n - 1);
    }
  }

  lemma {:induction false} ShiftTwice(v: nat, a: nat, b: nat)
    ensures Shift(Shift(v, a), b) == Shift(v, a + b)
  {
    if b > 0 {
      ShiftTwice(v, a, b - 1);
    }
  }

  lemma HighestDigits()
    ensures DigitsToNat("00000000ffff") == Some(0xffff)
  {
    assert DigitsToNat("") == Some(0);
    ZeroDigits("", 0, "00000000");
    ShiftZero(8);
    assert "" + "00000000" == "00000000";
    Last("00000000", 0, 'f', 15);
    assert "00000000" + ['f'] == "00000000f";
    Last("00000000f", 15, 'f', 15);
    assert "00000000f" + ['f'] == "00000000ff";
    Last("00000000ff", 0xff, 'f', 15);
    assert "00000000ff" + ['f'] == "00000000fff";
    Last("00000000fff", 0xfff, 'f', 15);
    assert "00000000fff" + ['f'] == "00000000ffff";
  }

  lemma Last(s: string, v: nat, c: char, d: nat)
    requires DigitsToNat(s) == Some(v) && DigitValue(c) == Some(d)
    ensures DigitsToNat(s + [c]) == Some(16 * v + d)
  {
    assert (s + [c])[..|s|] == s;
  }

  // ---- Difficulty ------------------------------------------------------------------------

  /** Go's float: dividing by a zero target gives infinity. */
  datatype Difficulty = Finite(value: real) | Infinite

  function DifficultyOf(target: int): Difficulty {
    if target == 0 then Infinite else Finite(HighestTarget() as real / target as real)
  }

  /** The highest target over the difficulty, cut down to a whole number. */
  function TargetOf(difficulty: real): (t: nat)
    requires difficulty > 0.0
  {
    var q := HighestTarget() as real / difficulty;
    assert q >= 0.0;
    q.Floor
  }

  function TargetFromDifficulty(difficulty: real): string
    requires difficulty > 0.0
  {
    HexText(TargetOf(difficulty))
  }

  lemma FloorBound(s: int, q: real)
    ensures s <= q.Floor <==> s as real <= q
  {
  }

  lemma QuotientBound(m: real, s: real, d: real)
    requires d > 0.0
    ensures s <= m / d <==> s * d <= m
  {
    assert (m / d) * d == m;
    if s <= m / d {
      assert s * d <= (m / d) * d;
    } else {
      assert s * d > (m / d) * d;
    }
  }

  lemma FloorMeets(m: real, s: int, d: real)
    requires d > 0.0
    ensures s <= (m / d).Floor <==> s as real * d <= m
  {
    FloorBound(s, m / d);
    QuotientBound(m, s as real, d);
  }

  /** A hash meets the target of a difficulty exactly when its own difficulty is as high. */
  lemma MeetsTarget(s: nat, d: real)
    requires d > 0.0
    ensures s <= TargetOf(d) <==> s as real * d <= HighestTarget() as real
    ensures s > 0 ==> (s <= TargetOf(d) <==> HighestTarget() as real / s as real >= d)
  {
    var m: real := HighestTarget() as real;
    FloorMeets(m, s, d);
    if s > 0 {
      QuotientBound(m, d, s as real);
    }
  }

  lemma Rounding(m: real, d: real, t: nat)
    requires d > 0.0 && t >= 1 && t == (m / d).Floor
    ensures d <= m / t as real < d * (t as real + 1.0) / t as real
  {
    FloorMeets(m, t, d);
    FloorMeets(m, t + 1, d);
    QuotientBound(m, d, t as real);
    DivideBelow(m, d * (t as real + 1.0), t as real);
  }

  /** How far the whole target rounds the difficulty up: less than one part in t. */
  lemma DifficultyRounding(d: real)
    requires d > 0.0 && TargetOf(d) >= 1
    ensures var t := TargetOf(d) as real;
      DifficultyOf(TargetOf(d)).Finite? && d <= DifficultyOf(TargetOf(d)).value < d * (t + 1.0) / t
  {
    Rounding(HighestTarget() as real, d, TargetOf(d));
  }

  lemma DivideBelow(a: real, b: real, t: real)
    requires a < b && t > 0.0
    ensures a / t < b / t
  {
    QuotientBound(a, b / t, t);
    assert (b / t) * t == b;
  }

  /** A higher difficulty never has a higher target. */
  lemma TargetAntitone(d1: real, d2: real)
    requires 0.0 < d1 <= d2
    ensures TargetOf(d2) <= TargetOf(d1)
  {
    var t := TargetOf(d2);
    MeetsTarget(t, d2);
    MeetsTarget(t, d1);
    assert t as real * d1 <= t as real * d2;
  }
}
