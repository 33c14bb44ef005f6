/** persistence/share.go: the shares table, read backwards in time one page at a time. */
module Shares {
  import opened Outcomes
  import opened Ledger
  import opened Bytes
  import opened BlockFormat

  /** Instants since Go's zero time. */
  type Time = nat

  const ZERO_TIME: Time := 0

  /** A row of the table. `row` is its place in storage, which no query returns: it only tells
      equal rows apart. Difficulties are positive. */
  datatype ShareRow = ShareRow(row: nat, pool: string, miner: string, difficulty: real, networkDifficulty: real, created: Time)
  type Share = s: ShareRow | s.difficulty > 0.0 && s.networkDifficulty > 0.0
    witness ShareRow(0, "", "", 1.0, 1.0, 0)

  /** The rows of `WHERE poolid = $1 AND created <(=) $2`. */
  function Eligible(shares: set<Share>, pool: string, before: Time, inclusive: bool): set<Share> {
    set s | s in shares && s.pool == pool && (if inclusive then s.created <= before else s.created < before)
  }

  lemma EligibleAre(shares: set<Share>, pool: string, before: Time, inclusive: bool, s: Share)
    ensures s in Eligible(shares, pool, before, inclusive)
      <==> s in shares && s.pool == pool && (s.created < before || (inclusive && s.created == before))
  {
  }

  function Older(rows: set<Share>, t: Time): set<Share> {
    set s | s in rows && s.created < t
  }

  ghost predicate Distinct(s: seq<Share>) {
    forall i, j :: 0 <= i < j < |s| ==> s[i] != s[j]
  }

  ghost predicate NewestFirst(s: seq<Share>) {
    forall i, j :: 0 <= i < j < |s| ==> s[i].created >= s[j].created
  }

  /** An answer to `ORDER BY created DESC FETCH NEXT size ROWS ONLY`: ties come in any order, and
      a full page may cut through them. */
  ghost predicate IsPage(rows: set<Share>, size: nat, page: seq<Share>) {
    && Distinct(page) && NewestFirst(page)
    && (forall s | s in page :: s in rows)
    && |page| <= size
    && (forall s | s in rows && s !in page :: |page| == size && forall p | p in page :: p.created >= s.created)
  }

  class ShareRepository {
    const calls: Calls
    var shares: set<Share>

    constructor (calls: Calls)
      ensures this.calls == calls && shares == {}
    {
      this.calls, shares := calls, {};
    }

    method GetSharesBefore(pool: string, before: Time, inclusive: bool, pageSize: nat) returns (r: Outcome<seq<Share>>)
      modifies calls
      ensures r.Ok? ==> IsPage(Eligible(shares, pool, before, inclusive), pageSize, r.value)
      ensures calls.failed == old(calls.failed) + if r.Ok? then 0 else 1
    {
      var works := calls.Attempt();
      if !works {
        return Err;
      }
      var rows := Eligible(shares, pool, before, inclusive);
      var page: seq<Share> := [];
      var left := rows;
      while left != {} && |page| < pageSize
        invariant left <= rows && |page| <= pageSize && calls.failed == old(calls.failed)
        invariant Distinct(page) && NewestFirst(page)
        invariant forall s | s in page :: s in rows && s !in left
        invariant forall s | s in rows && s !in left :: s in page
        invariant forall s, p | s in left && p in page :: p.created >= s.created
        decreases left
      {
        NewestExists(left);
        var s :| s in left && forall o | o in left :: o.created <= s.created;
        page := page + [s];
        left := left - {s};
      }
      return Ok(page);
    }

    method DeleteSharesBefore(pool: string, before: Time) returns (ok: bool)
      modifies this, calls
      ensures calls.failed == old(calls.failed) + if ok then 0 else 1
      ensures shares == if ok then old(shares) - Eligible(old(shares), pool, before, false) else old(shares)
    {
      ok := calls.Attempt();
      if ok {
        shares := shares - Eligible(shares, pool, before, false);
      }
    }
  }

  lemma NewestExists(rows: set<Share>)
    requires rows != {}
    ensures exists s :: s in rows && forall o | o in rows :: o.created <= s.created
  {
    var s :| s in rows;
    var others := rows - {s};
    assert forall o | o in rows :: o == s || o in others;
    if others != {} {
      NewestExists(others);
      var n :| n in others && forall o | o in others :: o.created <= n.created;
      var best := if n.created >= s.created then n else s;
      assert best in rows;
    } else {
      assert forall o | o in rows :: o.created <= s.created;
    }
  }

  // ---- Paging through all of them ----------------------------------------------------------

  function Oldest(page: seq<Share>): Time
    requires page != []
  {
    page[|page| - 1].created
  }

  /** Full pages read one after another, each starting strictly before the last row of the one
      before it; `left` is what is still older than the last row read. */
  ghost predicate IsRun(rows: set<Share>, size: nat, pages: seq<seq<Share>>, left: set<Share>) {
    if pages == [] then left == rows
    else
      && IsPage(rows, size, pages[0]) && pages[0] != [] && |pages[0]| == size
      && IsRun(Older(rows, Oldest(pages[0])), size, pages[1..], left)
  }

  /** A whole visit: full pages, then one that is not full. */
  ghost predicate IsVisit(rows: set<Share>, size: nat, pages: seq<seq<Share>>)
    decreases |pages|
  {
    && pages != [] && IsPage(rows, size, pages[0])
    && if |pages[0]| < size then |pages| == 1
       else pages[0] != [] && IsVisit(Older(rows, Oldest(pages[0])), size, pages[1..])
  }

  lemma {:induction false} RunExtends(rows: set<Share>, size: nat, pages: seq<seq<Share>>, left: set<Share>, page: seq<Share>)
    requires IsRun(rows, size, pages, left)
    requires IsPage(left, size, page) && page != [] && |page| == size
    ensures IsRun(rows, size, pages + [page], Older(left, Oldest(page)))
    decreases |pages|
  {
    if pages == [] {
      assert [page][1..] == [] && pages + [page] == [page];
    } else {
      RunExtends(Older(rows, Oldest(pages[0])), size, pages[1..], left, page);
      assert (pages + [page])[1..] == pages[1..] + [page];
    }
  }

  lemma PageThenVisit(rows: set<Share>, size: nat, page: seq<Share>, more: seq<seq<Share>>)
    requires size > 0 && IsPage(rows, size, page)
    requires if |page| < size then more == [] else IsVisit(Older(rows, Oldest(page)), size, more)
    ensures IsVisit(rows, size, [page] + more)
  {
    assert ([page] + more)[1..] == more;
  }

  lemma {:induction false} RunThenVisit(rows: set<Share>, size: nat, pages: seq<seq<Share>>, left: set<Share>, rest: seq<seq<Share>>)
    requires IsRun(rows, size, pages, left) && IsVisit(left, size, rest)
    ensures IsVisit(rows, size, pages + rest)
    decreases |pages|
  {
    if pages == [] {
      assert pages + rest == rest;
    } else {
      RunThenVisit(Older(rows, Oldest(pages[0])), size, pages[1..], left, rest);
      PageThenVisit(rows, size, pages[0], pages[1..] + rest);
      assert pages + rest == [pages[0]] + (pages[1..] + rest);
    }
  }

  /** A page can always be read. */
  lemma PageExists(rows: set<Share>, size: nat) returns (page: seq<Share>)
    ensures IsPage(rows, size, page)
    decreases size
  {
    if size == 0 || rows == {} {
      page := [];
    } else {
      NewestExists(rows);
      var s :| s in rows && forall o | o in rows :: o.created <= s.created;
      var rest := PageExists(rows - {s}, size - 1);
      page := [s] + rest;
    }
  }

  /** The rows older than a full page are strictly fewer, so paging ends. */
  lemma OlderIsSmaller(rows: set<Share>, size: nat, page: seq<Share>)
    requires IsPage(rows, size, page) && page != []
    ensures |Older(rows, Oldest(page))| < |rows|
  {
    assert page[|page| - 1] in rows;
    assert Older(rows, Oldest(page)) <= rows - {page[|page| - 1]};
    Subset(Older(rows, Oldest(page)), rows - {page[|page| - 1]});
  }

  lemma Subset<T>(a: set<T>, b: set<T>)
    requires a <= b
    ensures |a| <= |b|
  {
    if a != {} {
      var x :| x in a;
      Subset(a - {x}, b - {x});
    }
  }

  lemma VisitExists(rows: set<Share>, size: nat) returns (pages: seq<seq<Share>>)
    requires size > 0
    ensures IsVisit(rows, size, pages)
    decreases |rows|
  {
    var page := PageExists(rows, size);
    if |page| < size {
      pages := [page];
    } else {
      OlderIsSmaller(rows, size, page);
      var rest := VisitExists(Older(rows, Oldest(page)), size);
      pages := [page] + rest;
      assert pages[1..] == rest;
    }
  }

  /** A row tied with the last row of a full page that left it out. */
  ghost predicate Straddles(pages: seq<seq<Share>>, size: nat, s: Share) {
    exists k :: 0 <= k < |pages| && |pages[k]| == size && pages[k] != [] && s.created == Oldest(pages[k]) && s !in pages[k]
  }

  lemma FlattenSplit(pages: seq<seq<Share>>, s: Share)
    requires pages != []
    ensures s in Flatten(pages) <==> s in pages[0] || s in Flatten(pages[1..])
  {
  }

  lemma DistinctAppend(a: seq<Share>, b: seq<Share>)
    requires Distinct(a) && Distinct(b) && forall i, j :: 0 <= i < |a| && 0 <= j < |b| ==> a[i] != b[j]
    ensures Distinct(a + b)
  {
  }

  /** Nothing is visited twice, and only rows of the table are visited. */
  lemma {:induction false} VisitsOnce(rows: set<Share>, size: nat, pages: seq<seq<Share>>)
    requires IsVisit(rows, size, pages)
    ensures Distinct(Flatten(pages))
    ensures forall s | s in Flatten(pages) :: s in rows
    decreases |pages|
  {
    if |pages[0]| < size {
      assert pages[1..] == [] && pages[0] + [] == pages[0];
    } else {
      var older := Older(rows, Oldest(pages[0]));
      VisitsOnce(older, size, pages[1..]);
      var a, b := pages[0], Flatten(pages[1..]);
      forall i, j | 0 <= i < |a| && 0 <= j < |b| ensures a[i] != b[j] {
        assert b[j] in b && a[i].created >= a[|a| - 1].created;
      }
      DistinctAppend(a, b);
    }
  }

  lemma StraddlesSplit(pages: seq<seq<Share>>, size: nat, s: Share)
    requires pages != []
    ensures Straddles(pages, size, s) <==>
      (|pages[0]| == size && pages[0] != [] && s.created == Oldest(pages[0]) && s !in pages[0]) || Straddles(pages[1..], size, s)
  {
    var rest := pages[1..];
    if Straddles(rest, size, s) {
      var k :| 0 <= k < |rest| && |rest[k]| == size && rest[k] != [] && s.created == Oldest(rest[k]) && s !in rest[k];
      assert pages[k + 1] == rest[k];
    }
    if Straddles(pages, size, s) {
      var k :| 0 <= k < |pages| && |pages[k]| == size && pages[k] != [] && s.created == Oldest(pages[k]) && s !in pages[k];
      assert k > 0 ==> rest[k - 1] == pages[k];
    }
  }

  lemma {:induction false} StraddlersAreOlder(rows: set<Share>, size: nat, pages: seq<seq<Share>>, s: Share)
    requires IsVisit(rows, size, pages) && Straddles(pages, size, s)
    ensures exists o :: o in rows && o.created == s.created
  {
    var k :| 0 <= k < |pages| && |pages[k]| == size && pages[k] != [] && s.created == Oldest(pages[k]) && s !in pages[k];
    assert pages[k][|pages[k]| - 1] in Flatten(pages) by {
      InFlatten(pages, k, pages[k][|pages[k]| - 1]);
    }
    VisitsOnce(rows, size, pages);
  }

  lemma {:induction false} InFlatten(pages: seq<seq<Share>>, k: nat, s: Share)
    requires k < |pages| && s in pages[k]
    ensures s in Flatten(pages)
  {
    if k > 0 {
      InFlatten(pages[1..], k - 1, s);
    }
  }

  /** A visit misses exactly the rows tied with the last row of a full page that had no room. */
  lemma {:induction false} VisitMisses(rows: set<Share>, size: nat, pages: seq<seq<Share>>, s: Share)
    requires IsVisit(rows, size, pages) && s in rows
    ensures s !in Flatten(pages) <==> Straddles(pages, size, s)
    decreases |pages|
  {
    var page, rest := pages[0], pages[1..];
    FlattenSplit(pages, s);
    StraddlesSplit(pages, size, s);
    if |page| < size {
      assert rest == [];
    } else {
      var older := Older(rows, Oldest(page));
      if s in older {
        VisitMisses(older, size, rest, s);
        assert s !in page;
      } else {
        VisitsOnce(older, size, rest);
        if Straddles(rest, size, s) {
          StraddlersAreOlder(older, size, rest, s);
          assert false;
        }
      }
    }
  }

  /** Without a tie across a page boundary a visit is complete. */
  ghost predicate NoStraddle(rows: set<Share>, pages: seq<seq<Share>>, size: nat) {
    forall s | s in rows :: !Straddles(pages, size, s)
  }

  lemma CompleteVisit(rows: set<Share>, size: nat, pages: seq<seq<Share>>)
    requires IsVisit(rows, size, pages) && NoStraddle(rows, pages, size)
    ensures Distinct(Flatten(pages)) && forall s: Share :: s in Flatten(pages) <==> s in rows
  {
    VisitsOnce(rows, size, pages);
    forall s | s in rows ensures s in Flatten(pages) {
      VisitMisses(rows, size, pages, s);
    }
  }

  /** No two rows of the pool were created at the same instant. */
  ghost predicate NoTies(shares: set<Share>, pool: string) {
    forall s, t | s in shares && t in shares && s.pool == t.pool == pool && s.created == t.created :: s == t
  }

  /** Then no tie straddles a page. */
  lemma NoTiesNoStraddle(shares: set<Share>, pool: string, before: Time, size: nat, visit: seq<seq<Share>>)
    requires NoTies(shares, pool) && IsVisit(Eligible(shares, pool, before, true), size, visit)
    ensures NoStraddle(Eligible(shares, pool, before, true), visit, size)
  {
    var rows := Eligible(shares, pool, before, true);
    VisitsOnce(rows, size, visit);
    forall s | s in rows ensures !Straddles(visit, size, s) {
      if Straddles(visit, size, s) {
        var k :| 0 <= k < |visit| && |visit[k]| == size && visit[k] != [] && s.created == Oldest(visit[k]) && s !in visit[k];
        InFlatten(visit, k, visit[k][|visit[k]| - 1]);
      }
    }
  }

  /** Reading on from an older instant sees the older rows. */
  lemma EligibleOlder(shares: set<Share>, pool: string, before: Time, inclusive: bool, t: Time)
    requires t <= before
    ensures Eligible(shares, pool, t, false) == Older(Eligible(shares, pool, before, inclusive), t)
  {
  }

  lemma FlattenPages(pages: seq<seq<Share>>, rest: seq<seq<Share>>)
    ensures Flatten(pages + rest) == Flatten(pages) + Flatten(rest)
  {
    if pages == [] {
      assert pages + rest == rest;
    } else {
      FlattenPages(pages[1..], rest);
      assert (pages + rest)[1..] == pages[1..] + rest;
      assert pages[0] + (Flatten(pages[1..]) + Flatten(rest)) == (pages[0] + Flatten(pages[1..])) + Flatten(rest);
    }
  }

  lemma FlattenOne(page: seq<Share>)
    ensures Flatten([page]) == page
  {
    assert [page][1..] == [];
    assert page + [] == page;
  }

  /** A page that is not full ends the visit; after a full one some visit of the rest exists. */
  lemma FinishVisit(rows: set<Share>, size: nat, pages: seq<seq<Share>>, left: set<Share>, page: seq<Share>)
    returns (visit: seq<seq<Share>>, rest: seq<Share>)
    requires size > 0 && IsRun(rows, size, pages, left) && IsPage(left, size, page)
    ensures IsVisit(rows, size, visit)
    ensures Flatten(visit) == Flatten(pages) + page + rest
    ensures |page| < size ==> Flatten(visit) == Flatten(pages) + page
  {
    var more: seq<seq<Share>> := [];
    if |page| == size {
      more := VisitExists(Older(left, Oldest(page)), size);
    }
    PageThenVisit(left, size, page, more);
    RunThenVisit(rows, size, pages, left, [page] + more);
    visit := pages + ([page] + more);
    rest := Flatten(more);
    FlattenPages(pages, [page] + more);
    FlattenPages([page], more);
    FlattenOne(page);
    Group2(Flatten(pages), page, rest);
  }
}
