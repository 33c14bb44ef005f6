/** pool/extraNonce.go: every client gets an extranonce nobody had before. The random source is
    a sequence of draws, each a list of numbers below 16. */
module Extranonce {
  import opened Outcomes
  import opened Bytes

  type nibble = n: nat | n < 16
  type Draw = seq<nibble>

  function Text(d: Draw): (s: string)
    ensures |s| == |d| && forall i :: 0 <= i < |d| ==> s[i] == Digit(d[i])
  {
    seq(|d|, i requires 0 <= i < |d| => Digit(d[i]))
  }

  method RandomHex(d: Draw) returns (s: string)
    ensures s == Text(d)
  {
    var result := new char[|d|];
    for i := 0 to |d|
      invariant forall j :: 0 <= j < i ==> result[j] == Digit(d[j])
    {
      result[i] := Digit(d[i]);
    }
    s := result[..];
  }

  ghost predicate Distinct<T>(s: seq<T>) {
    forall i, j :: 0 <= i < j < |s| ==> s[i] != s[j]
  }

  class Registry {
    var extranonces: set<string>
    /** Everything returned so far, in order. */
    ghost var issued: seq<string>

    /** Whatever was ever returned is remembered, and nothing was returned twice. */
    ghost predicate Valid()
      reads this
    {
      Distinct(issued) && extranonces == set s | s in issued
    }

    constructor ()
      ensures Valid() && issued == []
    {
      extranonces, issued := {}, [];
    }

    /** Returns the first draw not used before. `None` stands for the loop still running when
        the given draws are spent, which happens exactly when all of them were used before. */
    method UniqueExtranonce(length: nat, draws: seq<Draw>) returns (r: Option<string>)
      requires Valid() && |draws| > 0 && forall d | d in draws :: |d| == length
      modifies this
      ensures Valid()
      ensures r.None? <==> forall d | d in draws :: Text(d) in old(extranonces)
      ensures r.None? ==> issued == old(issued)
      ensures r.Some? ==>
        && |r.value| == length && LowerHex(r.value)
        && r.value !in old(issued) && issued == old(issued) + [r.value]
        && exists k :: 0 <= k < |draws| && r.value == Text(draws[k])
                       && forall j :: 0 <= j < k ==> Text(draws[j]) in old(extranonces)
    {
      var next := 0;
      var extranonce := RandomHex(draws[0]);
      while extranonce in extranonces
        invariant extranonces == old(extranonces) && issued == old(issued)
        invariant 0 <= next < |draws| && extranonce == Text(draws[next])
        invariant forall j :: 0 <= j < next ==> Text(draws[j]) in extranonces
        decreases |draws| - next
      {
        next := next + 1;
        if next == |draws| {
          return None;
        }
        extranonce := RandomHex(draws[next]);
      }
      assert draws[next] in draws;
      extranonces := extranonces + {extranonce};
      issued := issued + [extranonce];
      r := Some(extranonce);
    }
  }
}
