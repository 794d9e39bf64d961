/**
 * What get_victim_by_default visits in SSR mode (gc.c): the eligible segments of one dirty list from the place
 * where the last scan was cut off, then from the beginning, up to the search limit.  The victim is the first
 * of the cheapest among those visited.
 */
module VictimScan {
  import opened Bitmaps
  import opened Geometry
  import opened DirtySeglist
  import opened SitInfo
  import opened SegmentState

  /** A segment SSR may take from dirty list d and that has room for at least one block. */
  ghost predicate Eligible(s: State, busySec: int, d: nat, k: nat) {
    && 0 < s.v.segsPerSec && d < |s.marks.maps| && k < |s.marks.maps[d]| && k < |s.sit.se|
    && s.marks.maps[d][k] && s.sit.se[k].ckptValid < s.v.blocksPerSeg
    && !SecInUse(s.v, s.logs, busySec, s.v.SecOf(k)) && !SecMarked(s.victimSec, s.v.SecOf(k))
  }

  ghost predicate HasEligible(s: State, busySec: int, d: nat) {
    exists j: nat :: Eligible(s, busySec, d, j)
  }

  // ----- the order of the scan -----

  /** The eligible segments from `from` on, lowest first. */
  ghost function Scan(s: State, busySec: int, d: nat, from: nat): seq<nat>
    decreases |s.sit.se| - from
  {
    if from >= |s.sit.se| then []
    else (if Eligible(s, busySec, d, from) then [from] else []) + Scan(s, busySec, d, from + 1)
  }

  ghost predicate Rising(r: seq<nat>) {
    forall i, j :: 0 <= i < j < |r| ==> r[i] < r[j]
  }

  /** It is exactly those, in that order. */
  lemma {:induction false} ScanHolds(s: State, busySec: int, d: nat, from: nat)
    ensures forall k: nat :: k in Scan(s, busySec, d, from) <==> from <= k && Eligible(s, busySec, d, k)
    ensures Rising(Scan(s, busySec, d, from))
    decreases |s.sit.se| - from
  {
    if from < |s.sit.se| {
      ScanHolds(s, busySec, d, from + 1);
      RisingFrom(from, Scan(s, busySec, d, from + 1));
    }
  }

  lemma RisingFrom(from: nat, rest: seq<nat>)
    requires Rising(rest) && forall k :: k in rest ==> from < k
    ensures Rising([from] + rest) && Rising([] + rest)
  {
    assert forall i :: 0 <= i < |rest| ==> rest[i] in rest;
  }

  /** From the place of the last scan to the end, and, if that was not the beginning, once more from there. */
  ghost function Order(s: State, busySec: int, d: nat, start: nat): seq<nat> {
    Scan(s, busySec, d, start) + if start != 0 then Scan(s, busySec, d, 0) else []
  }

  /** How many eligible segments a scan visits at most: max_search, and one more. */
  function Limit(nrDirty: int, maxVictimSearch: int): nat {
    var m := if nrDirty > maxVictimSearch then maxVictimSearch else nrDirty;
    if m < 0 then 1 else m + 1
  }

  ghost function Visited(s: State, busySec: int, d: nat, start: nat, limit: nat): seq<nat> {
    var order := Order(s, busySec, d, start);
    if |order| <= limit then order else order[..limit]
  }

  /** The last segment visited if the limit stopped the scan, else 0. */
  ghost function NextStart(s: State, busySec: int, d: nat, start: nat, limit: nat): nat
    requires 0 < limit
  {
    var order := Order(s, busySec, d, start);
    if |order| < limit then 0 else order[limit - 1]
  }

  // ----- the cheapest -----

  function Cost(s: State, k: nat): int {
    if k < |s.sit.se| then s.sit.se[k].ckptValid else 0
  }

  /** visited[i] is cheaper than all before it, and nothing behind it is cheaper. */
  ghost predicate CheapestAt(s: State, visited: seq<nat>, i: nat) {
    && i < |visited|
    && (forall j :: 0 <= j < i ==> Cost(s, visited[i]) < Cost(s, visited[j]))
    && (forall j :: i < j < |visited| ==> Cost(s, visited[i]) <= Cost(s, visited[j]))
  }

  ghost predicate FirstCheapest(s: State, visited: seq<nat>, k: nat) {
    exists i: nat :: CheapestAt(s, visited, i) && visited[i] == k
  }

  // ----- the scan, step by step -----

  /** Where the scan stands: at `offset`, and to begin again after the end or not. */
  ghost predicate Visiting(s: State, busySec: int, d: nat, order: seq<nat>, visited: seq<nat>, offset: nat, again: bool) {
    order == visited + Scan(s, busySec, d, offset) + if again then Scan(s, busySec, d, 0) else []
  }

  ghost predicate BestSoFar(s: State, visited: seq<nat>, found: bool, k: nat, cost: int) {
    && (found <==> visited != [])
    && (!found ==> cost == s.v.blocksPerSeg)
    && (found ==> FirstCheapest(s, visited, k) && cost == Cost(s, k))
  }

  ghost predicate NoneBetween(s: State, d: nat, a: nat, b: nat) {
    forall k :: a <= k < b && d < |s.marks.maps| && k < |s.marks.maps[d]| ==> !s.marks.maps[d][k]
  }

  lemma {:induction false} ScanSkips(s: State, busySec: int, d: nat, a: nat, b: nat)
    requires a <= b && NoneBetween(s, d, a, b)
    ensures Scan(s, busySec, d, a) == Scan(s, busySec, d, b)
    decreases b - a
  {
    if a < b { ScanSkips(s, busySec, d, a + 1, b); }
  }

  /** The next marked segment is visited, or passed over. */
  lemma ScanNext(s: State, busySec: int, d: nat, order: seq<nat>, visited: seq<nat>, offset: nat, again: bool, seg: nat)
    requires Visiting(s, busySec, d, order, visited, offset, again)
    requires offset <= seg < |s.sit.se| && NoneBetween(s, d, offset, seg)
    ensures var next := if Eligible(s, busySec, d, seg) then visited + [seg] else visited;
      Visiting(s, busySec, d, order, next, seg + 1, again)
  {
    ScanSkips(s, busySec, d, offset, seg);
    var one: seq<nat> := if Eligible(s, busySec, d, seg) then [seg] else [];
    Regroup(visited, one, Scan(s, busySec, d, seg + 1), if again then Scan(s, busySec, d, 0) else []);
    assert visited + one == if Eligible(s, busySec, d, seg) then visited + [seg] else visited;
  }

  lemma Regroup(a: seq<nat>, b: seq<nat>, c: seq<nat>, d: seq<nat>)
    ensures a + (b + c) + d == (a + b) + c + d
  {
  }

  /** No more marked segment: the scan begins again, or is over. */
  lemma ScanRunsOut(s: State, busySec: int, d: nat, order: seq<nat>, visited: seq<nat>, offset: nat, again: bool)
    requires Visiting(s, busySec, d, order, visited, offset, again) && NoneBetween(s, d, offset, |s.sit.se|)
    ensures again ==> Visiting(s, busySec, d, order, visited, 0, false)
    ensures !again ==> order == visited
  {
    if offset <= |s.sit.se| { ScanSkips(s, busySec, d, offset, |s.sit.se|); }
  }

  /** A visited segment replaces the best one exactly when it is cheaper. */
  lemma BestStep(s: State, visited: seq<nat>, found: bool, k: nat, cost: int, seg: nat)
    requires BestSoFar(s, visited, found, k, cost) && Cost(s, seg) < s.v.blocksPerSeg
    ensures BestSoFar(s, visited + [seg], true, if cost > Cost(s, seg) then seg else k, if cost > Cost(s, seg) then Cost(s, seg) else cost)
  {
    var next := visited + [seg];
    if cost > Cost(s, seg) {
      if found {
        var i: nat :| CheapestAt(s, visited, i) && visited[i] == k;
        assert forall j :: 0 <= j < |visited| ==> Cost(s, visited[i]) <= Cost(s, visited[j]);
      }
      assert CheapestAt(s, next, |visited|) && next[|visited|] == seg;
    } else {
      var i: nat :| CheapestAt(s, visited, i) && visited[i] == k;
      assert CheapestAt(s, next, i) && next[i] == k;
    }
  }

  /** What holds before every turn of the loop. */
  ghost predicate ScanOk(s: State, busySec: int, d: nat, start: nat, limit: nat, visited: seq<nat>, offset: nat, again: bool,
                         found: bool, k: nat, minCost: int)
  {
    && Visiting(s, busySec, d, Order(s, busySec, d, start), visited, offset, again)
    && BestSoFar(s, visited, found, k, minCost) && |visited| < limit
  }

  /** The scan is over, or cut off at the limit. */
  lemma ScanEnds(s: State, busySec: int, d: nat, start: nat, limit: nat, visited: seq<nat>, offset: nat, again: bool, cut: bool)
    requires Visiting(s, busySec, d, Order(s, busySec, d, start), visited, offset, again) && 0 < limit
    requires if cut then |visited| == limit else |visited| < limit && Order(s, busySec, d, start) == visited
    ensures Visited(s, busySec, d, start, limit) == visited
    ensures NextStart(s, busySec, d, start, limit) == if cut then visited[limit - 1] else 0
    ensures visited == [] <==> !HasEligible(s, busySec, d)
    ensures forall k :: k in visited ==> Eligible(s, busySec, d, k)
  {
    var order := Order(s, busySec, d, start);
    assert order[..|visited|] == visited;
    OrderHolds(s, busySec, d, start);
    assert forall k :: k in visited ==> k in order;
    NoneIn(visited);
    if cut { assert visited[0] in visited; }
  }

  /** The order holds every eligible segment and no other. */
  lemma OrderHolds(s: State, busySec: int, d: nat, start: nat)
    ensures forall k: nat :: k in Order(s, busySec, d, start) <==> Eligible(s, busySec, d, k)
    ensures Order(s, busySec, d, start) == [] <==> !HasEligible(s, busySec, d)
  {
    ScanHolds(s, busySec, d, 0);
    ScanHolds(s, busySec, d, start);
    NoneIn(Order(s, busySec, d, start));
  }

  /** A scan that is cut off has visited one segment more than the limit of the search says. */
  lemma CutVisits(s: State, busySec: int, d: nat, start: nat, nr: int, maxVictimSearch: int)
    requires 0 <= nr && 0 <= maxVictimSearch && NextStart(s, busySec, d, start, Limit(nr, maxVictimSearch)) != 0
    ensures |Visited(s, busySec, d, start, Limit(nr, maxVictimSearch))| == 1 + if nr < maxVictimSearch then nr else maxVictimSearch
  {
  }

  /** With nothing eligible in a list, the next scan begins at 0. */
  lemma NothingVisited(s: State, busySec: int, d: nat, start: nat, limit: nat)
    requires !HasEligible(s, busySec, d) && 0 < limit
    ensures NextStart(s, busySec, d, start, limit) == 0
  {
    OrderHolds(s, busySec, d, start);
  }

  lemma NoneIn(r: seq<nat>)
    ensures r == [] <==> forall k: nat :: k !in r
  {
    if r != [] { assert r[0] in r; }
  }

  // ----- when the limit is not reached -----

  lemma {:induction false} ScanSplit(s: State, busySec: int, d: nat, from: nat, at: nat) returns (p: seq<nat>)
    requires from <= at
    ensures Scan(s, busySec, d, from) == p + Scan(s, busySec, d, at)
    decreases at - from
  {
    p := [];
    if from < at {
      var q := ScanSplit(s, busySec, d, from + 1, at);
      var first := if from < |s.sit.se| && Eligible(s, busySec, d, from) then [from] else [];
      p := first + q;
      assert first + (q + Scan(s, busySec, d, at)) == p + Scan(s, busySec, d, at);
    }
  }

  /** There are no more eligible segments than marked ones. */
  lemma {:induction false} ScanCount(s: State, busySec: int, d: nat, from: nat)
    requires d < |s.marks.maps| && |s.marks.maps[d]| == |s.sit.se| && from <= |s.sit.se|
    ensures |Scan(s, busySec, d, from)| <= Ones(s.marks.maps[d]) - Ones(s.marks.maps[d][..from])
    decreases |s.sit.se| - from
  {
    var m := s.marks.maps[d];
    if from < |s.sit.se| {
      ScanCount(s, busySec, d, from + 1);
      assert m[..from + 1][..from] == m[..from];
    } else {
      assert m[..from] == m;
    }
  }

  /** When the counter of the list is right and within the limit, the scan visits every eligible segment. */
  lemma {:induction false} AllVisited(s: State, busySec: int, d: nat, start: nat, maxVictimSearch: int, j: nat)
    requires d < |s.marks.maps| && |s.marks.maps[d]| == |s.sit.se| && d < |s.marks.nr|
    requires s.marks.nr[d] == Ones(s.marks.maps[d]) <= maxVictimSearch && Eligible(s, busySec, d, j)
    ensures j in Visited(s, busySec, d, start, Limit(s.marks.nr[d], maxVictimSearch))
  {
    var limit := Limit(s.marks.nr[d], maxVictimSearch);
    var order := Order(s, busySec, d, start);
    var whole, later := Scan(s, busySec, d, 0), Scan(s, busySec, d, start);
    ScanHolds(s, busySec, d, 0);
    ScanHolds(s, busySec, d, start);
    ScanCount(s, busySec, d, 0);
    var p := ScanSplit(s, busySec, d, 0, start);
    var i: nat :| i < |whole| && whole[i] == j;
    var at := if i >= |p| then i - |p| else |later| + i;
    assert at < |order| && order[at] == j && at < limit;
    assert Visited(s, busySec, d, start, limit)[at] == j;
  }

  /** So its victim is the cheapest of all eligible ones. */
  lemma CheapestOfAll(s: State, busySec: int, d: nat, start: nat, maxVictimSearch: int, k: nat)
    requires d < |s.marks.maps| && |s.marks.maps[d]| == |s.sit.se| && d < |s.marks.nr|
    requires s.marks.nr[d] == Ones(s.marks.maps[d]) <= maxVictimSearch
    requires FirstCheapest(s, Visited(s, busySec, d, start, Limit(s.marks.nr[d], maxVictimSearch)), k)
    ensures forall j: nat :: Eligible(s, busySec, d, j) ==> Cost(s, k) <= Cost(s, j)
  {
    forall j: nat | Eligible(s, busySec, d, j) ensures Cost(s, k) <= Cost(s, j) {
      AllVisited(s, busySec, d, start, maxVictimSearch, j);
    }
  }

  /** What a scan of list d that begins at `start` takes. */
  ghost predicate BestVictim(s: State, busySec: int, maxVictimSearch: int, start: nat, d: nat, k: nat) {
    && d < |s.marks.nr| && Eligible(s, busySec, d, k)
    && FirstCheapest(s, Visited(s, busySec, d, start, Limit(s.marks.nr[d], maxVictimSearch)), k)
  }
}
