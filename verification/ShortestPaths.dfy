/** Single-source shortest paths with recorded routes (Algorithms/lab3/SHORTEST-PATHS_plus.c). */
module ShortestPaths {

  /** MAX marks a missing edge; sums are 32-bit and wrap around. */
  const MAX: int := 0x7FFF_FFFF

  function Wrap(x: int): int { if x > MAX then x - 0x1_0000_0000 else x }

  datatype Graph = Graph(n: nat, cost: seq<seq<int>>)
  {
    predicate Shaped() { |cost| == n && forall i :: 0 <= i < n ==> |cost[i]| == n }

    /** Off the diagonal every cost is positive, or MAX. */
    predicate Positive()
      requires Shaped()
    {
      forall i, j :: 0 <= i < n && 0 <= j < n && i != j ==> 0 < cost[i][j] <= MAX
    }

    predicate Edge(i: nat, j: nat)
      requires Shaped()
    {
      i < n && j < n && i != j && cost[i][j] < MAX
    }
  }

  function Last(p: seq<nat>): nat
    requires p != []
  {
    p[|p| - 1]
  }

  function Front(p: seq<nat>): seq<nat>
    requires p != []
  {
    p[..|p| - 1]
  }

  /** A way along edges, from its first vertex to its last. */
  predicate Walk(g: Graph, p: seq<nat>)
    requires g.Shaped()
    decreases |p|
  {
    p != [] && Last(p) < g.n && (|p| > 1 ==> Walk(g, Front(p)) && g.Edge(Last(Front(p)), Last(p)))
  }

  function Cost(g: Graph, i: nat, j: nat): int
    requires g.Shaped()
  {
    if i < g.n && j < g.n then g.cost[i][j] else MAX
  }

  function Len(g: Graph, p: seq<nat>): int
    requires g.Shaped()
    decreases |p|
  {
    if |p| <= 1 then 0 else Len(g, Front(p)) + Cost(g, Last(Front(p)), Last(p))
  }

  predicate Distinct(p: seq<nat>) {
    forall i, j :: 0 <= i < j < |p| ==> p[i] != p[j]
  }

  /** A way that begins at v. */
  predicate WalkFrom(g: Graph, v: nat, p: seq<nat>)
    requires g.Shaped()
  {
    Walk(g, p) && p[0] == v
  }

  /** Every way from v without a repeated vertex is shorter than MAX. */
  ghost predicate SumsFit(g: Graph, v: nat)
    requires g.Shaped()
  {
    forall p: seq<nat> :: WalkFrom(g, v, p) && Distinct(p) ==> Len(g, p) < MAX
  }

  /** One more edge at the end. */
  lemma LenStep(g: Graph, v: nat, p: seq<nat>, w: nat)
    requires g.Shaped() && WalkFrom(g, v, p) && g.Edge(Last(p), w)
    ensures WalkFrom(g, v, p + [w]) && Last(p + [w]) == w && Len(g, p + [w]) == Len(g, p) + g.cost[Last(p)][w]
  {
    assert Front(p + [w]) == p;
  }

  /** The guard against overflow lets through exactly the positive costs whose sum fits. */
  lemma GuardIff(cost: int, dist: int)
    requires 0 <= cost <= MAX && 0 <= dist <= MAX
    ensures Wrap(cost + dist) > dist <==> 0 < cost && cost + dist <= MAX
  {
  }

  // ----- the invariant -----

  /** DIST, S and the intermediate nodes of list[w]. */
  datatype State = State(dist: seq<int>, sel: seq<bool>, via: seq<seq<nat>>)

  /** The recorded route to w. */
  function Route(v: nat, s: State, w: nat): seq<nat>
    requires w < |s.via|
  {
    if w == v then [v] else [v] + s.via[w] + [w]
  }

  ghost predicate Sizes(g: Graph, v: nat, s: State) {
    && g.Shaped() && g.Positive() && v < g.n && |s.dist| == |s.sel| == |s.via| == g.n
    && s.sel[v] && s.dist[v] == 0
    && forall w :: 0 <= w < g.n && w != v ==> 0 < s.dist[w] <= MAX
  }

  /** All vertices of p but the last are selected. */
  ghost predicate ThroughSelected(s: State, p: seq<nat>) {
    forall k :: 0 <= k < |p| - 1 ==> p[k] < |s.sel| && s.sel[p[k]]
  }

  /** The route to w is real, has the recorded length, and passes through selected vertices only. */
  ghost predicate RouteOk(g: Graph, v: nat, s: State, w: nat)
    requires g.Shaped() && w < |s.via| && w < |s.dist|
  {
    var r := Route(v, s, w);
    WalkFrom(g, v, r) && Len(g, r) == s.dist[w] && Distinct(r) && ThroughSelected(s, r)
  }

  ghost predicate RoutesOk(g: Graph, v: nat, s: State)
    requires g.Shaped() && |s.dist| == |s.via| == g.n
  {
    forall w: nat :: w < g.n && s.dist[w] < MAX ==> RouteOk(g, v, s, w)
  }

  /** No walk to w is shorter than DIST says; where DIST is MAX there is none. */
  ghost predicate Least(g: Graph, v: nat, dist: int, w: nat)
    requires g.Shaped()
  {
    forall p: seq<nat> :: WalkFrom(g, v, p) && Last(p) == w ==> dist < MAX && dist <= Len(g, p)
  }

  ghost predicate SelectedOk(g: Graph, v: nat, s: State)
    requires g.Shaped() && |s.dist| == |s.sel| == g.n
  {
    forall u: nat :: u < g.n && s.sel[u] ==> s.dist[u] < MAX && Least(g, v, s.dist[u], u)
  }

  ghost predicate RelaxedAt(g: Graph, s: State, u: nat, w: nat)
    requires g.Shaped() && |s.dist| == |s.sel| == g.n && u < g.n && w < g.n
  {
    s.sel[u] && !s.sel[w] && g.Edge(u, w) ==> s.dist[w] <= s.dist[u] + g.cost[u][w]
  }

  /** Every edge out of a selected vertex has been taken into account. */
  ghost predicate Relaxed(g: Graph, s: State)
    requires g.Shaped() && |s.dist| == |s.sel| == g.n
  {
    forall u: nat, w: nat :: u < g.n && w < g.n ==> RelaxedAt(g, s, u, w)
  }

  ghost predicate Inv(g: Graph, v: nat, s: State) {
    Sizes(g, v, s) && RoutesOk(g, v, s) && SelectedOk(g, v, s) && Relaxed(g, s)
  }

  lemma DistinctEnd(s: State, r: seq<nat>, u: nat, w: nat)
    requires r != [] && Distinct(r) && ThroughSelected(s, r) && Last(r) == u != w
    requires w < |s.sel| && !s.sel[w]
    ensures Distinct(r + [w])
  {
    forall k | 0 <= k < |r| ensures r[k] != w {
    }
  }

  /** A vertex with a route and an edge out of the selection make a way without repeats. */
  lemma {:induction false} StepFits(g: Graph, v: nat, s: State, u: nat, w: nat)
    requires g.Shaped() && |s.sel| == |s.dist| == |s.via| == g.n && SumsFit(g, v) && u < g.n && RouteOk(g, v, s, u)
    requires g.Edge(u, w) && !s.sel[w]
    ensures s.dist[u] + g.cost[u][w] < MAX
    ensures WalkFrom(g, v, Route(v, s, u) + [w]) && Len(g, Route(v, s, u) + [w]) == s.dist[u] + g.cost[u][w]
    ensures Distinct(Route(v, s, u) + [w])
  {
    var r := Route(v, s, u);
    LenStep(g, v, r, w);
    DistinctEnd(s, r, u, w);
  }

  /** A walk to an unselected vertex leaves the selection at some vertex whose distance is no longer. */
  lemma {:induction false} LeavesSelection(g: Graph, v: nat, s: State, p: seq<nat>) returns (y: nat)
    requires Inv(g, v, s) && SumsFit(g, v) && WalkFrom(g, v, p) && !s.sel[Last(p)]
    ensures y < g.n && !s.sel[y] && s.dist[y] < MAX && s.dist[y] <= Len(g, p)
    decreases |p|
  {
    var q := Front(p);
    var u := Last(q);
    if s.sel[u] {
      y := Last(p);
      SelectedStep(g, v, s, q, u, y);
    } else {
      y := LeavesSelection(g, v, s, q);
      assert 0 < g.cost[u][Last(p)];
    }
  }

  lemma {:induction false} SelectedStep(g: Graph, v: nat, s: State, q: seq<nat>, u: nat, y: nat)
    requires Inv(g, v, s) && SumsFit(g, v) && WalkFrom(g, v, q) && u == Last(q) && s.sel[u] && g.Edge(u, y) && !s.sel[y]
    ensures s.dist[y] < MAX && s.dist[y] <= Len(g, q) + g.cost[u][y]
  {
    assert s.dist[u] < MAX && Least(g, v, s.dist[u], u);
    assert RouteOk(g, v, s, u);
    StepFits(g, v, s, u, y);
    assert RelaxedAt(g, s, u, y);
  }

  /** u has the least distance of the unselected vertices. */
  predicate Closest(s: State, u: nat) {
    && u < |s.sel| == |s.dist| && !s.sel[u] && s.dist[u] < MAX
    && forall w :: 0 <= w < |s.sel| && !s.sel[w] ==> s.dist[u] <= s.dist[w]
  }

  lemma {:induction false} ClosestIsLeast(g: Graph, v: nat, s: State, u: nat)
    requires Inv(g, v, s) && SumsFit(g, v) && Closest(s, u)
    ensures Least(g, v, s.dist[u], u)
  {
    forall p: seq<nat> | WalkFrom(g, v, p) && Last(p) == u ensures s.dist[u] <= Len(g, p) {
      var y := LeavesSelection(g, v, s, p);
    }
  }

  /** When no unselected vertex has a finite distance, none can be reached. */
  lemma {:induction false} NoneLeft(g: Graph, v: nat, s: State, w: nat)
    requires Inv(g, v, s) && SumsFit(g, v) && w < g.n && !s.sel[w]
    requires forall x :: 0 <= x < g.n && !s.sel[x] && x != w ==> s.dist[x] == MAX
    ensures Least(g, v, s.dist[w], w)
  {
    forall p: seq<nat> | WalkFrom(g, v, p) && Last(p) == w ensures s.dist[w] < MAX && s.dist[w] <= Len(g, p) {
      var y := LeavesSelection(g, v, s, p);
    }
  }

  // ----- selecting u and relaxing its edges -----

  predicate Better(g: Graph, s: State, u: nat, w: nat)
    requires g.Shaped() && |s.dist| == |s.sel| == g.n && u < g.n && w < g.n
  {
    w != u && !s.sel[w] && g.Edge(u, w) && s.dist[w] > s.dist[u] + g.cost[u][w]
  }

  /** What the inner loop does for one w. */
  ghost predicate AfterAt(g: Graph, s: State, u: nat, dist: int, via: seq<nat>, w: nat)
    requires g.Shaped() && |s.dist| == |s.sel| == |s.via| == g.n && u < g.n && w < g.n
  {
    if Better(g, s, u, w) then dist == s.dist[u] + g.cost[u][w] && via == s.via[u] + [u]
    else dist == s.dist[w] && via == s.via[w]
  }

  /** The state after u was selected and every edge out of it relaxed. */
  ghost predicate After(g: Graph, s: State, u: nat, t: State)
    requires g.Shaped() && |s.dist| == |s.sel| == |s.via| == g.n && u < g.n
  {
    && |t.dist| == |t.via| == g.n && t.sel == s.sel[u := true]
    && forall w :: 0 <= w < g.n ==> AfterAt(g, s, u, t.dist[w], t.via[w], w)
  }

  lemma {:induction false} AfterSizes(g: Graph, v: nat, s: State, u: nat, t: State)
    requires Sizes(g, v, s) && u < g.n && !s.sel[u] && After(g, s, u, t)
    ensures Sizes(g, v, t)
  {
    assert AfterAt(g, s, u, t.dist[v], t.via[v], v);
    forall w | 0 <= w < g.n && w != v ensures 0 < t.dist[w] <= MAX {
      assert AfterAt(g, s, u, t.dist[w], t.via[w], w);
    }
  }

  lemma {:induction false} AfterRoutes(g: Graph, v: nat, s: State, u: nat, t: State)
    requires Sizes(g, v, s) && RoutesOk(g, v, s) && SumsFit(g, v) && Closest(s, u) && After(g, s, u, t)
    ensures RoutesOk(g, v, t)
  {
    forall w: nat | w < g.n && t.dist[w] < MAX ensures RouteOk(g, v, t, w) {
      assert AfterAt(g, s, u, t.dist[w], t.via[w], w);
      if Better(g, s, u, w) {
        NewRoute(g, v, s, u, t, w);
      } else {
        assert RouteOk(g, v, s, w);
        OldRoute(g, v, s, u, t, w);
      }
    }
  }

  lemma {:induction false} OldRoute(g: Graph, v: nat, s: State, u: nat, t: State, w: nat)
    requires g.Shaped() && |s.dist| == |s.sel| == |s.via| == |t.dist| == |t.via| == g.n && u < g.n && w < g.n
    requires RouteOk(g, v, s, w) && t.sel == s.sel[u := true] && t.dist[w] == s.dist[w] && t.via[w] == s.via[w]
    ensures RouteOk(g, v, t, w)
  {
    assert Route(v, t, w) == Route(v, s, w);
  }

  lemma {:induction false} NewRoute(g: Graph, v: nat, s: State, u: nat, t: State, w: nat)
    requires Sizes(g, v, s) && RoutesOk(g, v, s) && SumsFit(g, v) && Closest(s, u)
    requires w < g.n && Better(g, s, u, w) && |t.dist| == |t.via| == g.n && t.sel == s.sel[u := true]
    requires t.dist[w] == s.dist[u] + g.cost[u][w] && t.via[w] == s.via[u] + [u]
    ensures RouteOk(g, v, t, w)
  {
    assert RouteOk(g, v, s, u);
    StepFits(g, v, s, u, w);
    var r := Route(v, s, u);
    assert Route(v, t, w) == r + [w];
    Extended(s, u, t, r, w);
  }

  lemma Extended(s: State, u: nat, t: State, r: seq<nat>, w: nat)
    requires ThroughSelected(s, r) && r != [] && Last(r) == u < |s.sel| && t.sel == s.sel[u := true]
    ensures ThroughSelected(t, r + [w])
  {
  }

  lemma {:induction false} AfterSelected(g: Graph, v: nat, s: State, u: nat, t: State)
    requires Inv(g, v, s) && SumsFit(g, v) && Closest(s, u) && After(g, s, u, t)
    ensures SelectedOk(g, v, t)
  {
    ClosestIsLeast(g, v, s, u);
    forall x: nat | x < g.n && t.sel[x] ensures t.dist[x] < MAX && Least(g, v, t.dist[x], x) {
      assert AfterAt(g, s, u, t.dist[x], t.via[x], x);
      assert t.dist[x] == s.dist[x];
    }
  }

  lemma {:induction false} AfterRelaxed(g: Graph, v: nat, s: State, u: nat, t: State)
    requires Sizes(g, v, s) && Relaxed(g, s) && Closest(s, u) && After(g, s, u, t)
    ensures Relaxed(g, t)
  {
    forall x: nat, w: nat | x < g.n && w < g.n ensures RelaxedAt(g, t, x, w) {
      assert AfterAt(g, s, u, t.dist[x], t.via[x], x) && AfterAt(g, s, u, t.dist[w], t.via[w], w);
      assert RelaxedAt(g, s, x, w);
    }
  }

  lemma {:induction false} AfterKeeps(g: Graph, v: nat, s: State, u: nat, t: State)
    requires Inv(g, v, s) && SumsFit(g, v) && Closest(s, u) && After(g, s, u, t)
    ensures Inv(g, v, t)
  {
    AfterSizes(g, v, s, u, t);
    AfterRoutes(g, v, s, u, t);
    AfterSelected(g, v, s, u, t);
    AfterRelaxed(g, v, s, u, t);
  }

  /** The state the first loop sets up. */
  ghost predicate Initial(g: Graph, v: nat, s: State)
    requires g.Shaped() && v < g.n
  {
    && |s.dist| == |s.sel| == |s.via| == g.n
    && forall i :: 0 <= i < g.n ==>
      s.dist[i] == (if i == v then 0 else g.cost[v][i]) && s.sel[i] == (i == v) && s.via[i] == []
  }

  lemma {:induction false} LenPositive(g: Graph, p: seq<nat>)
    requires g.Shaped() && g.Positive() && Walk(g, p)
    ensures 0 <= Len(g, p)
    decreases |p|
  {
    if |p| > 1 { LenPositive(g, Front(p)); }
  }

  lemma {:induction false} InitialOk(g: Graph, v: nat, s: State)
    requires g.Shaped() && g.Positive() && v < g.n && Initial(g, v, s)
    ensures Inv(g, v, s)
  {
    forall w: nat | w < g.n && s.dist[w] < MAX ensures RouteOk(g, v, s, w) {
      if w != v {
        assert WalkFrom(g, v, [v]) && Len(g, [v]) == 0;
        LenStep(g, v, [v], w);
        assert Route(v, s, w) == [v] + [w];
      }
    }
    forall p: seq<nat> | WalkFrom(g, v, p) && Last(p) == v ensures 0 <= Len(g, p) {
      LenPositive(g, p);
    }
    assert Least(g, v, s.dist[v], v);
  }

  // ----- the program -----

  function Unselected(sel: seq<bool>): (k: nat)
    ensures k <= |sel|
  {
    if sel == [] then 0 else Unselected(sel[..|sel| - 1]) + if sel[|sel| - 1] then 0 else 1
  }

  lemma {:induction false} UnselectedUpdate(sel: seq<bool>, u: nat)
    requires u < |sel| && !sel[u]
    ensures Unselected(sel[u := true]) == Unselected(sel) - 1
  {
    var last := |sel| - 1;
    if u == last {
      assert sel[u := true][..last] == sel[..last];
    } else {
      assert sel[u := true][..last] == sel[..last][u := true];
      UnselectedUpdate(sel[..last], u);
    }
  }

  /** Of at most one unselected vertex there are no two. */
  lemma {:induction false} OneUnselected(sel: seq<bool>, a: nat, b: nat)
    requires a < b < |sel| && !sel[a] && !sel[b]
    ensures Unselected(sel) >= 2
  {
    var last := |sel| - 1;
    if b < last { OneUnselected(sel[..last], a, b); } else { SomeUnselected(sel[..last], a); }
  }

  lemma {:induction false} SomeUnselected(sel: seq<bool>, a: nat)
    requires a < |sel| && !sel[a]
    ensures Unselected(sel) >= 1
  {
    if a < |sel| - 1 { SomeUnselected(sel[..|sel| - 1], a); }
  }

  /** min_dist: the closest unselected vertex, or -1 when none has a finite distance. */
  method MinDist(dist: array<int>, sel: array<bool>, n: nat) returns (m: int)
    requires dist.Length == sel.Length == n && forall i :: 0 <= i < n ==> dist[i] <= MAX
    ensures -1 <= m < n
    ensures m < 0 ==> forall i :: 0 <= i < n && !sel[i] ==> dist[i] == MAX
    ensures m >= 0 ==> !sel[m] && dist[m] < MAX && forall w :: 0 <= w < n && !sel[w] ==> dist[m] <= dist[w]
  {
    m := -1;
    var temp := MAX;
    var i := 0;
    while i < n
      invariant 0 <= i <= n && -1 <= m < n && temp <= MAX
      invariant m < 0 ==> temp == MAX
      invariant m >= 0 ==> !sel[m] && dist[m] == temp < MAX
      invariant forall w :: 0 <= w < i && !sel[w] ==> temp <= dist[w]
    {
      if !sel[i] {
        if dist[i] < temp {
          temp, m := dist[i], i;
        }
      }
      i := i + 1;
    }
  }

  /** The two tests of the inner loop hold exactly when the way over u is shorter, and then the sum has not wrapped. */
  predicate GuardExact(g: Graph, s: State, u: nat, w: nat)
    requires g.Shaped() && |s.dist| == |s.sel| == g.n && u < g.n && w < g.n
  {
    var sum := Wrap(g.cost[u][w] + s.dist[u]);
    && ((sum > s.dist[u] && s.dist[w] > sum) <==> Better(g, s, u, w))
    && (Better(g, s, u, w) ==> sum == s.dist[u] + g.cost[u][w])
  }

  /** One round of the inner loop, with the guard against overflow as it stands. */
  method RelaxEdge(g: Graph, dist: array<int>, sel: array<bool>, via: array<seq<nat>>, u: nat, w: nat, ghost s: State)
    requires g.Shaped() && |s.dist| == |s.sel| == |s.via| == g.n && u < g.n && w < g.n
    requires dist.Length == sel.Length == via.Length == g.n && sel[w] == (s.sel[w] || w == u)
    requires dist[u] == s.dist[u] && via[u] == s.via[u] && dist[w] == s.dist[w] && via[w] == s.via[w]
    requires !sel[w] ==> GuardExact(g, s, u, w)
    modifies dist, via
    ensures AfterAt(g, s, u, dist[w], via[w], w)
    ensures forall x :: 0 <= x < g.n && x != w ==> dist[x] == old(dist[x]) && via[x] == old(via[x])
    ensures dist[u] == s.dist[u] && via[u] == s.via[u]
  {
    if !sel[w] {
      if Wrap(g.cost[u][w] + dist[u]) > dist[u] {
        if dist[w] > Wrap(dist[u] + g.cost[u][w]) {
          dist[w] := Wrap(dist[u] + g.cost[u][w]);
          via[w] := via[u] + [u];
        }
      }
    }
  }

  ghost predicate GuardsExact(g: Graph, s: State, u: nat)
    requires g.Shaped() && |s.dist| == |s.sel| == g.n && u < g.n
  {
    forall w: nat :: w < g.n && w != u && !s.sel[w] ==> GuardExact(g, s, u, w)
  }

  /** The whole inner loop. */
  method Relax(g: Graph, dist: array<int>, sel: array<bool>, via: array<seq<nat>>, u: nat, ghost s: State)
    requires g.Shaped() && |s.dist| == |s.sel| == |s.via| == g.n && u < g.n && GuardsExact(g, s, u)
    requires dist.Length == sel.Length == via.Length == g.n
    requires dist[..] == s.dist && sel[..] == s.sel[u := true] && via[..] == s.via
    modifies dist, via
    ensures After(g, s, u, State(dist[..], sel[..], via[..]))
  {
    var w := 0;
    while w < g.n
      invariant 0 <= w <= g.n && dist[u] == s.dist[u] && via[u] == s.via[u]
      invariant forall x :: 0 <= x < w ==> AfterAt(g, s, u, dist[x], via[x], x)
      invariant forall x :: w <= x < g.n ==> dist[x] == s.dist[x] && via[x] == s.via[x]
    {
      assert sel[w] == sel[..][w];
      RelaxEdge(g, dist, sel, via, u, w, s);
      w := w + 1;
    }
  }

  lemma {:induction false} GuardsAreExact(g: Graph, v: nat, s: State, u: nat)
    requires Sizes(g, v, s) && RoutesOk(g, v, s) && SumsFit(g, v) && Closest(s, u)
    ensures GuardsExact(g, s, u)
  {
    forall w: nat | w < g.n && w != u && !s.sel[w] ensures GuardExact(g, s, u, w) {
      GuardAtEdge(g, v, s, u, w);
    }
  }

  lemma ViaGrows(g: Graph, s: State, u: nat, t: State, i: nat)
    requires g.Shaped() && |s.dist| == |s.sel| == |s.via| == g.n && u < g.n && After(g, s, u, t)
    requires forall w :: 0 <= w < g.n ==> |s.via[w]| < i
    ensures forall w :: 0 <= w < g.n ==> |t.via[w]| < i + 1
  {
    forall w | 0 <= w < g.n ensures |t.via[w]| < i + 1 {
      assert AfterAt(g, s, u, t.dist[w], t.via[w], w);
    }
  }

  /** At an edge the sum fits and the guard holds; without an edge nothing can improve. */
  lemma {:induction false} GuardAtEdge(g: Graph, v: nat, s: State, u: nat, w: nat)
    requires Sizes(g, v, s) && RoutesOk(g, v, s) && SumsFit(g, v) && Closest(s, u) && w < g.n && w != u && !s.sel[w]
    ensures GuardExact(g, s, u, w)
  {
    GuardIff(g.cost[u][w], s.dist[u]);
    assert RouteOk(g, v, s, u);
    if g.Edge(u, w) { StepFits(g, v, s, u, w); }
  }

  /** What the program promises of DIST and of the route lists. */
  ghost predicate Correct(g: Graph, v: nat, s: State) {
    && Sizes(g, v, s) && RoutesOk(g, v, s)
    && forall w: nat :: w < g.n ==> Least(g, v, s.dist[w], w)
  }

  lemma {:induction false} AllLeast(g: Graph, v: nat, s: State)
    requires Inv(g, v, s) && SumsFit(g, v)
    requires Unselected(s.sel) <= 1 || forall x :: 0 <= x < g.n && !s.sel[x] ==> s.dist[x] == MAX
    ensures Correct(g, v, s)
  {
    forall w: nat | w < g.n ensures Least(g, v, s.dist[w], w) {
      if !s.sel[w] {
        forall x | 0 <= x < g.n && !s.sel[x] && x != w ensures s.dist[x] == MAX {
          if x < w { OneUnselected(s.sel, x, w); } else { OneUnselected(s.sel, w, x); }
        }
        NoneLeft(g, v, s, w);
      }
    }
  }

  /** The loop's invariant: i vertices are selected, and routes have fewer than i intermediate vertices. */
  ghost predicate Round(g: Graph, v: nat, s: State, i: nat) {
    Inv(g, v, s) && Unselected(s.sel) + i == g.n && ViaShort(s, i)
  }

  ghost predicate ViaShort(s: State, i: nat) {
    forall w :: 0 <= w < |s.via| ==> |s.via[w]| < i
  }

  /** The first loop of SHROTEST_PATHS. */
  method Initialize(g: Graph, v: nat) returns (dist: array<int>, via: array<seq<nat>>, s: array<bool>)
    requires g.Shaped() && g.Positive() && v < g.n
    ensures fresh(dist) && fresh(via) && fresh(s) && dist.Length == via.Length == s.Length == g.n
    ensures Round(g, v, State(dist[..], s[..], via[..]), 1)
  {
    var n := g.n;
    dist := new int[n](i requires 0 <= i < n => g.cost[v][i]);
    via := new seq<nat>[n](_ => []);
    s := new bool[n](_ => false);
    s[v] := true;
    dist[v] := 0;
    InitialOk(g, v, State(dist[..], s[..], via[..]));
    InitialCount(s[..], v);
  }

  /** Selecting u and relaxing its edges. */
  method Select(g: Graph, v: nat, dist: array<int>, s: array<bool>, via: array<seq<nat>>, u: nat, ghost i: nat)
    requires dist.Length == via.Length == s.Length == g.n && SumsFitShaped(g, v)
    requires Round(g, v, State(dist[..], s[..], via[..]), i) && Closest(State(dist[..], s[..], via[..]), u)
    modifies dist, s, via
    ensures Round(g, v, State(dist[..], s[..], via[..]), i + 1)
  {
    ghost var before := State(dist[..], s[..], via[..]);
    UnselectedUpdate(s[..], u);
    s[u] := true;
    assert s[..] == before.sel[u := true];
    GuardsAreExact(g, v, before, u);
    Relax(g, dist, s, via, u, before);
    AfterKeeps(g, v, before, u, State(dist[..], s[..], via[..]));
    ViaGrows(g, before, u, State(dist[..], s[..], via[..]), i);
  }

  ghost predicate SumsFitShaped(g: Graph, v: nat) { g.Shaped() && SumsFit(g, v) }

  /** min_dist on the current state. */
  method Choose(g: Graph, v: nat, dist: array<int>, s: array<bool>, via: array<seq<nat>>, ghost i: nat) returns (u: int)
    requires dist.Length == via.Length == s.Length == g.n && Round(g, v, State(dist[..], s[..], via[..]), i)
    ensures u < g.n
    ensures u >= 0 ==> Closest(State(dist[..], s[..], via[..]), u)
    ensures u < 0 ==> NoneFinite(State(dist[..], s[..], via[..]))
  {
    ghost var now := State(dist[..], s[..], via[..]);
    forall w | 0 <= w < g.n ensures dist[w] <= MAX {
      assert dist[w] == now.dist[w];
    }
    u := MinDist(dist, s, g.n);
  }

  ghost predicate NoneFinite(s: State) {
    |s.dist| == |s.sel| && forall x :: 0 <= x < |s.sel| && !s.sel[x] ==> s.dist[x] == MAX
  }

  /**
   * SHROTEST_PATHS: also when it returns early, DIST is the true distance, MAX exactly where there is no
   * way, and every recorded route is real, has that length and passes through at most n - 2 vertices.
   */
  method FindShortestPaths(g: Graph, v: nat) returns (finished: bool, dist: array<int>, via: array<seq<nat>>, s: array<bool>)
    requires v < g.n && SumsFitShaped(g, v) && g.Positive()
    ensures Correct(g, v, State(dist[..], s[..], via[..]))
    ensures ViaShort(State(dist[..], s[..], via[..]), if g.n >= 2 then g.n - 1 else 1)
  {
    dist, via, s := Initialize(g, v);
    var i := 1;
    finished := true;
    while i < g.n - 1 && finished
      invariant dist.Length == via.Length == s.Length == g.n && fresh(dist) && fresh(via) && fresh(s)
      invariant 1 <= i && (g.n >= 2 ==> i <= g.n - 1) && (g.n == 1 ==> i == 1)
      invariant Round(g, v, State(dist[..], s[..], via[..]), i)
      invariant finished || NoneFinite(State(dist[..], s[..], via[..]))
      decreases g.n - i, finished
    {
      var u := Choose(g, v, dist, s, via, i);
      if u < 0 {
        finished := false;
      } else {
        Select(g, v, dist, s, via, u, i);
        i := i + 1;
      }
    }
    Finish(g, v, State(dist[..], s[..], via[..]), i);
  }

  lemma {:induction false} Finish(g: Graph, v: nat, s: State, i: nat)
    requires SumsFitShaped(g, v) && Round(g, v, s, i) && (i + 1 >= g.n || NoneFinite(s))
    requires 1 <= i && (g.n >= 2 ==> i <= g.n - 1) && (g.n == 1 ==> i == 1)
    ensures Correct(g, v, s) && ViaShort(s, if g.n >= 2 then g.n - 1 else 1)
  {
    AllLeast(g, v, s);
  }

  lemma {:induction false} InitialCount(sel: seq<bool>, v: nat)
    requires v < |sel| && forall i :: 0 <= i < |sel| ==> sel[i] == (i == v)
    ensures Unselected(sel) == |sel| - 1
  {
    var last := |sel| - 1;
    if v == last { NoneSelected(sel[..last]); } else { InitialCount(sel[..last], v); }
  }

  lemma {:induction false} NoneSelected(sel: seq<bool>)
    requires forall i :: 0 <= i < |sel| ==> !sel[i]
    ensures Unselected(sel) == |sel|
  {
    if sel != [] { NoneSelected(sel[..|sel| - 1]); }
  }
}
