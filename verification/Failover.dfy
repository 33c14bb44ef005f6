/** rpc/manager.go: which of a chain's nodes is in use, and the search for a healthy one. */
module Failover {
  import opened Outcomes

  /** The node after `i` of `n`, cyclically. */
  function Next(i: nat, n: nat): (r: nat)
    ensures i < n ==> r < n
  {
    if i + 1 < n then i + 1 else 0
  }

  /** `k` nodes further on. */
  function Onward(i: nat, k: nat, n: nat): (r: nat)
    ensures i < n ==> r < n
  {
    if k == 0 then i else Next(Onward(i, k - 1, n), n)
  }

  lemma {:induction false} OnwardIs(i: nat, k: nat, n: nat)
    requires i < n && k <= n
    ensures Onward(i, k, n) == if i + k < n then i + k else i + k - n
  {
    if k > 0 {
      OnwardIs(i, k - 1, n);
    }
  }

  /** Going all the way round passes every node and ends where it began. */
  lemma RoundTrip(i: nat, n: nat, target: nat)
    requires i < n && target < n
    ensures Onward(i, n, n) == i
    ensures exists k :: 1 <= k <= n && Onward(i, k, n) == target
  {
    OnwardIs(i, n, n);
    var k := if target > i then target - i else target + n - i;
    OnwardIs(i, k, n);
    assert Onward(i, k, n) == target;
  }

  /** `k` is how far the first healthy node after `i` is. */
  predicate FirstHealthy(health: seq<bool>, i: nat, k: nat)
    requires i < |health|
  {
    && 1 <= k <= |health| && health[Onward(i, k, |health|)]
    && forall j :: 1 <= j < k ==> !health[Onward(i, j, |health|)]
  }

  class NodeManager {
    /** How many nodes there are. */
    const nodes: nat
    var activeIndex: nat

    constructor (nodes: nat)
      ensures this.nodes == nodes && activeIndex == 0
    {
      this.nodes, activeIndex := nodes, 0;
    }

    method NextNode()
      modifies this
      ensures activeIndex == Next(old(activeIndex), nodes)
    {
      if activeIndex < nodes - 1 {
        activeIndex := activeIndex + 1;
      } else {
        activeIndex := 0;
      }
    }

    method RestorePrimary()
      modifies this
      ensures activeIndex == 0
    {
      activeIndex := 0;
    }

    /** Undisturbed, with the nodes' health as it is: stops at the first healthy node after the
        current one, which may be the current one itself; fails exactly when no node is healthy,
        back where it began. */
    method FindHealthyNode(health: seq<bool>) returns (ok: bool, ghost probes: nat)
      requires |health| == nodes && (nodes > 0 ==> activeIndex < nodes)
      modifies this
      ensures nodes > 0 ==> activeIndex < nodes
      ensures ok <==> true in health
      ensures ok ==> nodes > 0 && FirstHealthy(health, old(activeIndex), probes) && activeIndex == Onward(old(activeIndex), probes, nodes)
      ensures !ok ==> activeIndex == old(activeIndex) && probes == nodes
    {
      var nodesLength := nodes;
      var nodesChecked := 0;
      var nowHealthy := false;
      ghost var start := activeIndex;
      while !nowHealthy
        invariant 0 <= nodesChecked <= nodesLength && (nodes > 0 ==> start < nodes)
        invariant nodes > 0 ==> activeIndex == Onward(start, nodesChecked, nodes)
        invariant nodes == 0 ==> activeIndex == start && !nowHealthy
        invariant nowHealthy ==> nodes > 0 && FirstHealthy(health, start, nodesChecked)
        invariant !nowHealthy ==> forall j :: 1 <= j <= nodesChecked ==> !health[Onward(start, j, nodes)]
        decreases !nowHealthy, nodesLength - nodesChecked
      {
        nodesChecked := nodesChecked + 1;
        if nodesChecked > nodesLength {
          forall i | 0 <= i < nodes ensures !health[i] {
            RoundTrip(start, nodes, i);
          }
          if nodes > 0 {
            RoundTrip(start, nodes, start);
          }
          return false, nodes;
        }
        NextNode();
        nowHealthy := health[activeIndex];
      }
      return true, nodesChecked;
    }

    /** Keeps a healthy node; otherwise looks for one, and if that works starts waiting for the
        primary to come back. */
    method CheckAndRecoverRPCs(health: seq<bool>) returns (ok: bool, awaitsPrimary: bool)
      requires |health| == nodes && activeIndex < nodes
      modifies this
      ensures activeIndex < nodes
      ensures ok <==> true in health
      ensures ok ==> health[activeIndex]
      ensures ok && !health[old(activeIndex)] ==>
        exists k :: FirstHealthy(health, old(activeIndex), k) && activeIndex == Onward(old(activeIndex), k, nodes)
      ensures activeIndex == old(activeIndex) <==> health[old(activeIndex)] || !ok
      ensures awaitsPrimary <==> ok && !health[old(activeIndex)]
    {
      if health[activeIndex] {
        return true, false;
      }
      ghost var probes;
      ok, probes := FindHealthyNode(health);
      awaitsPrimary := ok;
    }
  }

  // ---- Searchers and restores, interleaved ------------------------------------------------------

  /** Where a search stands between two reads or writes of the shared index. `checked` counts the
      nodes it has counted so far. */
  datatype Search =
    | Resting
    | Turning(checked: nat)
    | Passed(checked: nat)
    | Loaded(checked: nat, value: nat)
    | Wrapping(checked: nat)
    | Probing(checked: nat)
    | Failed

  /** The shared index and where two searches stand. */
  datatype State = State(index: nat, first: Search, second: Search)

  /** One atomic step of the first or the second search: it starts, compares the index with the
      last one, reads it to add one, writes it back, or probes the node it names; or a background
      restore writes zero. */
  datatype Event = Begin(first: bool) | Compare(first: bool) | Load(first: bool) | Store(first: bool) | Probe(first: bool, healthy: bool) | Restore

  /** The step a search takes, or nothing when it is elsewhere. Counting too far ends the search. */
  function Advance(s: Search, e: Event, index: nat, n: nat): Option<(Search, nat)> {
    match (s, e)
    case (Resting, Begin(_)) => Some((if n == 0 then Failed else Turning(1), index))
    case (Turning(c), Compare(_)) => Some((if index < n - 1 then Passed(c) else Wrapping(c), index))
    case (Passed(c), Load(_)) => Some((Loaded(c, index), index))
    case (Loaded(c, v), Store(_)) => Some((Probing(c), v + 1))
    case (Wrapping(c), Store(_)) => Some((Probing(c), 0))
    case (Probing(c), Probe(_, healthy)) => Some((if healthy then Resting else if c + 1 > n then Failed else Turning(c + 1), index))
    case _ => None
  }

  function Do(s: State, e: Event, n: nat): Option<State> {
    if e.Restore? then Some(s.(index := 0))
    else
      match Advance(if e.first then s.first else s.second, e, s.index, n)
      case None => None
      case Some((next, index)) => Some(if e.first then State(index, next, s.second) else State(index, s.first, next))
  }

  function Run(s: State, events: seq<Event>, n: nat): Option<State> {
    if events == [] then Some(s)
    else
      match Run(s, events[..|events| - 1], n)
      case None => None
      case Some(t) => Do(t, events[|events| - 1], n)
  }

  /** The nodes the first search probes on the way. */
  function Probed(s: State, events: seq<Event>, n: nat): set<nat> {
    if events == [] then {}
    else
      var front, last := events[..|events| - 1], events[|events| - 1];
      Probed(s, front, n) + if last.Probe? && last.first && Run(s, front, n).Some? then {Run(s, front, n).value.index} else {}
  }

  function Restores(events: seq<Event>): nat {
    if events == [] then 0 else Restores(events[..|events| - 1]) + if events[|events| - 1].Restore? then 1 else 0
  }

  /** What one search among restores keeps: whatever passed the comparison or was read for adding
      one lies below the last node, and no more nodes are counted than there are. */
  ghost predicate InRange(s: State, n: nat) {
    && s.second == Resting && s.index < n
    && match s.first
       case Resting => true
       case Failed => true
       case Passed(c) => 1 <= c <= n && s.index + 1 < n
       case Loaded(c, v) => 1 <= c <= n && v + 1 < n
       case Turning(c) => 1 <= c <= n
       case Wrapping(c) => 1 <= c <= n
       case Probing(c) => 1 <= c <= n
  }

  /** With one search and any restores in between, the index never leaves the range and the
      search counts at most as many nodes as there are. */
  lemma {:induction false} OneSearchStaysInRange(s: State, events: seq<Event>, n: nat)
    requires InRange(s, n) && Run(s, events, n).Some?
    requires forall e | e in events :: e.Restore? || e.first
    ensures InRange(Run(s, events, n).value, n)
    decreases |events|
  {
    if events != [] {
      var front, last := events[..|events| - 1], events[|events| - 1];
      assert last in events && forall e | e in front :: e in events;
      OneSearchStaysInRange(s, front, n);
    }
  }

  ghost predicate NothingHealthy(events: seq<Event>) {
    events == [] || (NothingHealthy(events[..|events| - 1]) && !(events[|events| - 1].Probe? && events[|events| - 1].healthy))
  }

  lemma StepOf(s: State, events: seq<Event>, mid: State, e: Event, n: nat)
    requires Run(s, events, n) == Some(mid)
    ensures Run(s, events + [e], n) == Do(mid, e, n)
  {
    assert (events + [e])[..|events|] == events;
  }

  lemma Then(s: State, events: seq<Event>, mid: State, e: Event, n: nat)
    requires Run(s, events, n) == Some(mid)
    ensures Run(s, events + [e], n) == Do(mid, e, n)
    ensures NothingHealthy(events) && !(e.Probe? && e.healthy) ==> NothingHealthy(events + [e])
    ensures Probed(s, events + [e], n) == Probed(s, events, n) + if e.Probe? && e.first then {mid.index} else {}
    ensures Restores(events + [e]) == Restores(events) + if e.Restore? then 1 else 0
  {
    assert (events + [e])[..|events|] == events;
  }

  lemma MoveOn(s: State, events: seq<Event>, i: nat, c: nat, other: Search, n: nat) returns (longer: seq<Event>)
    requires Run(s, events, n) == Some(State(i, Turning(c), other)) && i + 1 < n
    ensures Run(s, longer, n) == Some(State(i + 1, Probing(c), other))
    ensures NothingHealthy(events) ==> NothingHealthy(longer)
    ensures Probed(s, longer, n) == Probed(s, events, n) && Restores(longer) == Restores(events)
  {
    Then(s, events, State(i, Turning(c), other), Compare(true), n);
    longer := events + [Compare(true)];
    Then(s, longer, State(i, Passed(c), other), Load(true), n);
    longer := longer + [Load(true)];
    Then(s, longer, State(i, Loaded(c, i), other), Store(true), n);
    longer := longer + [Store(true)];
  }

  lemma MissProbed(i: nat, c: nat, other: Search, n: nat)
    ensures Do(State(i, Probing(c), other), Probe(true, false), n)
            == Some(State(i, if c + 1 > n then Failed else Turning(c + 1), other))
  {
  }

  /** The first search moves on to an unhealthy node that is not past the last one. */
  lemma MissOne(s: State, events: seq<Event>, i: nat, c: nat, other: Search, n: nat) returns (longer: seq<Event>)
    requires Run(s, events, n) == Some(State(i, Turning(c), other)) && i + 1 < n
    ensures Run(s, longer, n) == Some(State(i + 1, if c + 1 > n then Failed else Turning(c + 1), other))
    ensures NothingHealthy(events) ==> NothingHealthy(longer)
    ensures Probed(s, longer, n) == Probed(s, events, n) + {i + 1} && Restores(longer) == Restores(events)
  {
    var moved := MoveOn(s, events, i, c, other, n);
    Then(s, moved, State(i + 1, Probing(c), other), Probe(true, false), n);
    MissProbed(i + 1, c, other, n);
    longer := moved + [Probe(true, false)];
  }

  lemma FirstStep(s: State, n: nat)
    requires s.first == Resting && n > 0
    ensures Run(s, [Begin(true)], n) == Some(State(s.index, Turning(1), s.second))
    ensures NothingHealthy([Begin(true)]) && Probed(s, [Begin(true)], n) == {} && Restores([Begin(true)]) == 0
  {
    assert [Begin(true)][..0] == [];
    assert Run(s, [], n) == Some(s);
  }

  /** A lone search that finds nothing healthy moves the index on one node at a time. */
  lemma {:induction false} MoveTo(n: nat, k: nat) returns (events: seq<Event>)
    requires n >= 2 && k <= n - 2
    ensures Run(State(0, Resting, Resting), events, n) == Some(State(k, Turning(k + 1), Resting))
  {
    if k == 0 {
      events := [Begin(true)];
      FirstStep(State(0, Resting, Resting), n);
    } else {
      events := MoveTo(n, k - 1);
      events := MissOne(State(0, Resting, Resting), events, k - 1, k, Resting, n);
    }
  }

  /** Two searches at once can push the index past the last node, whatever the number of nodes:
      both compare before either adds. */
  lemma TwoSearchesOverrun(n: nat) returns (events: seq<Event>)
    requires n >= 2
    ensures Run(State(0, Resting, Resting), events, n) == Some(State(n, Probing(n - 1), Probing(1)))
  {
    var start := State(0, Resting, Resting);
    events := MoveTo(n, n - 2);
    StepOf(start, events, State(n - 2, Turning(n - 1), Resting), Begin(false), n);
    events := events + [Begin(false)];
    StepOf(start, events, State(n - 2, Turning(n - 1), Turning(1)), Compare(true), n);
    events := events + [Compare(true)];
    StepOf(start, events, State(n - 2, Passed(n - 1), Turning(1)), Compare(false), n);
    events := events + [Compare(false)];
    StepOf(start, events, State(n - 2, Passed(n - 1), Passed(1)), Load(true), n);
    events := events + [Load(true)];
    StepOf(start, events, State(n - 2, Loaded(n - 1, n - 2), Passed(1)), Store(true), n);
    events := events + [Store(true)];
    StepOf(start, events, State(n - 1, Probing(n - 1), Passed(1)), Load(false), n);
    events := events + [Load(false)];
    StepOf(start, events, State(n - 1, Probing(n - 1), Loaded(1, n - 1)), Store(false), n);
    events := events + [Store(false)];
  }

  /** With a single node no interleaving of two searches and restores leaves the range. */
  lemma {:induction false} OneNodeStaysInRange(events: seq<Event>)
    requires Run(State(0, Resting, Resting), events, 1).Some?
    ensures var t := Run(State(0, Resting, Resting), events, 1).value;
      t.index == 0 && !t.first.Passed? && !t.first.Loaded? && !t.second.Passed? && !t.second.Loaded?
    decreases |events|
  {
    if events != [] {
      OneNodeStaysInRange(events[..|events| - 1]);
    }
  }

  /** Some run of two searches from the primary leaves the range. */
  ghost predicate CanOverrun(n: nat) {
    exists events :: Run(State(0, Resting, Resting), events, n).Some? && Run(State(0, Resting, Resting), events, n).value.index >= n
  }

  /** Two searches can leave the range exactly when there is a second node. */
  lemma OverrunExactly(n: nat)
    requires n >= 1
    ensures CanOverrun(n) <==> n >= 2
  {
    if n >= 2 {
      var events := TwoSearchesOverrun(n);
      assert Run(State(0, Resting, Resting), events, n).value.index >= n;
    } else {
      forall events | Run(State(0, Resting, Resting), events, 1).Some?
        ensures Run(State(0, Resting, Resting), events, 1).value.index < 1
      {
        OneNodeStaysInRange(events);
      }
    }
  }

  // ---- What a failed search has probed -----------------------------------------------------------

  /** The first `k` nodes after `i`. */
  function Seen(i: nat, k: nat, n: nat): set<nat> {
    if k == 0 then {} else Seen(i, k - 1, n) + {Onward(i, k, n)}
  }

  lemma {:induction false} SeenHas(i: nat, j: nat, k: nat, n: nat)
    requires 1 <= j <= k
    ensures Onward(i, j, n) in Seen(i, k, n)
  {
    if j < k {
      SeenHas(i, j, k - 1, n);
    }
  }

  /** Where an undisturbed search that began at node `i` stands, and what it has probed. */
  ghost predicate Undisturbed(i: nat, t: State, probed: set<nat>, n: nat) {
    match t.first
    case Resting => true
    case Turning(c) => 1 <= c <= n && t.index == Onward(i, c - 1, n) && probed == Seen(i, c - 1, n)
    case Passed(c) => 1 <= c <= n && t.index == Onward(i, c - 1, n) && probed == Seen(i, c - 1, n) && t.index + 1 < n
    case Loaded(c, v) => 1 <= c <= n && v == Onward(i, c - 1, n) && probed == Seen(i, c - 1, n) && v + 1 < n
    case Wrapping(c) => 1 <= c <= n && t.index == Onward(i, c - 1, n) && probed == Seen(i, c - 1, n) && t.index + 1 >= n
    case Probing(c) => 1 <= c <= n && t.index == Onward(i, c, n) && probed == Seen(i, c - 1, n)
    case Failed => t.index == Onward(i, n, n) && probed == Seen(i, n, n)
  }

  /** A search of the first searcher, without a second begin. */
  ghost predicate OneSearch(rest: seq<Event>, withRestores: bool) {
    forall k :: 0 <= k < |rest| ==> if rest[k].Restore? then withRestores else rest[k].first && !rest[k].Begin?
  }

  lemma {:induction false} SearchIsUndisturbed(i: nat, rest: seq<Event>, n: nat)
    requires i < n && OneSearch(rest, false) && Run(State(i, Resting, Resting), [Begin(true)] + rest, n).Some?
    ensures Undisturbed(i, Run(State(i, Resting, Resting), [Begin(true)] + rest, n).value,
                        Probed(State(i, Resting, Resting), [Begin(true)] + rest, n), n)
    decreases |rest|
  {
    var start := State(i, Resting, Resting);
    if rest == [] {
      assert [Begin(true)] + rest == [Begin(true)];
      FirstStep(start, n);
    } else {
      var front, last := rest[..|rest| - 1], rest[|rest| - 1];
      var before := [Begin(true)] + front;
      assert [Begin(true)] + rest == before + [last];
      assert (before + [last])[..|before|] == before;
      SearchIsUndisturbed(i, front, n);
      Then(start, before, Run(start, before, n).value, last, n);
      UndisturbedStep(i, Run(start, before, n).value, Probed(start, before, n), last, n);
    }
  }

  lemma UndisturbedStep(i: nat, t: State, probed: set<nat>, e: Event, n: nat)
    requires i < n && Undisturbed(i, t, probed, n) && Do(t, e, n).Some? && !e.Restore? && e.first && !e.Begin?
    ensures Undisturbed(i, Do(t, e, n).value, probed + if e.Probe? then {t.index} else {}, n)
  {
  }

  /** Without a restore between its begin and its failure, a search has probed every node and is
      back where it began. */
  lemma UndisturbedFailureProbedAll(i: nat, rest: seq<Event>, n: nat)
    requires i < n && OneSearch(rest, false) && Run(State(i, Resting, Resting), [Begin(true)] + rest, n).Some?
    requires Run(State(i, Resting, Resting), [Begin(true)] + rest, n).value.first == Failed
    ensures forall node :: 0 <= node < n ==> node in Probed(State(i, Resting, Resting), [Begin(true)] + rest, n)
    ensures Run(State(i, Resting, Resting), [Begin(true)] + rest, n).value.index == i
  {
    SearchIsUndisturbed(i, rest, n);
    RoundTrip(i, n, i);
    forall node | 0 <= node < n ensures node in Seen(i, n, n) {
      RoundTrip(i, n, node);
      var j :| 1 <= j <= n && Onward(i, j, n) == node;
      SeenHas(i, j, n, n);
    }
  }

  lemma {:induction false} MissAll(events: seq<Event>, n: nat, k: nat) returns (longer: seq<Event>)
    requires n >= 2 && k <= n - 1 && NothingHealthy(events)
    requires Run(State(0, Resting, Resting), events, n) == Some(State(0, Turning(2), Resting))
    requires 0 !in Probed(State(0, Resting, Resting), events, n)
    ensures Run(State(0, Resting, Resting), longer, n) == Some(State(k, if k + 2 > n then Failed else Turning(k + 2), Resting))
    ensures 0 !in Probed(State(0, Resting, Resting), longer, n)
    ensures NothingHealthy(longer) && Restores(longer) == Restores(events)
    decreases k
  {
    longer := events;
    if k > 0 {
      longer := MissAll(events, n, k - 1);
      longer := MissOne(State(0, Resting, Resting), longer, k - 1, k + 1, Resting, n);
    }
  }

  /** One restore after the first probe makes a search of any two or more nodes fail without
      probing the primary that was just restored. */
  lemma RestoreHidesPrimary(n: nat) returns (events: seq<Event>)
    requires n >= 2
    ensures Run(State(0, Resting, Resting), events, n) == Some(State(n - 1, Failed, Resting))
    ensures 0 !in Probed(State(0, Resting, Resting), events, n)
    ensures NothingHealthy(events) && Restores(events) == 1
  {
    var start := State(0, Resting, Resting);
    FirstStep(start, n);
    events := MissOne(start, [Begin(true)], 0, 1, Resting, n);
    Then(start, events, State(1, Turning(2), Resting), Restore, n);
    events := MissAll(events + [Restore], n, n - 1);
  }

  /** With a single node a failed search has probed it, whatever the restores. */
  lemma {:induction false} OneNodeIsProbed(events: seq<Event>)
    requires Run(State(0, Resting, Resting), events, 1).Some? && Run(State(0, Resting, Resting), events, 1).value.first == Failed
    ensures 0 in Probed(State(0, Resting, Resting), events, 1)
    decreases |events|
  {
    var start, front, last := State(0, Resting, Resting), events[..|events| - 1], events[|events| - 1];
    OneNodeStaysInRange(front);
    if Run(start, front, 1).value.first == Failed {
      OneNodeIsProbed(front);
    }
  }

  /** Some run of one search among restores fails without having probed every node. */
  ghost predicate CanFailUnprobed(n: nat) {
    exists events, node :: FailsUnprobed(events, node, n)
  }

  ghost predicate FailsUnprobed(events: seq<Event>, node: nat, n: nat) {
    && Run(State(0, Resting, Resting), events, n).Some? && Run(State(0, Resting, Resting), events, n).value.first == Failed
    && node < n && node !in Probed(State(0, Resting, Resting), events, n)
  }

  /** Restores can spoil a search exactly when there is a second node. */
  lemma FailsUnprobedExactly(n: nat)
    requires n >= 1
    ensures CanFailUnprobed(n) <==> n >= 2
  {
    if n >= 2 {
      var events := RestoreHidesPrimary(n);
      assert FailsUnprobed(events, 0, n);
    } else {
      forall events, node ensures !FailsUnprobed(events, node, 1) {
        if FailsUnprobed(events, node, 1) {
          OneNodeIsProbed(events);
        }
      }
    }
  }
}
