/** Iterative backtracking for the n queens problem (Algorithms/additional/NQUEENS.c). */
module Queens {

  function Abs(x: int): nat { if x < 0 then -x else x }

  /** Two queens in different rows i < j attack each other. */
  predicate Attacks(q: seq<int>, i: nat, j: nat)
    requires i < j < |q|
  {
    q[i] == q[j] || Abs(q[i] - q[j]) == j - i
  }

  /** The first rows of a board on which no queen attacks another. */
  predicate Peaceful(n: nat, q: seq<int>) {
    && |q| <= n && (forall i :: 0 <= i < |q| ==> 0 <= q[i] < n)
    && forall i, j :: 0 <= i < j < |q| ==> !Attacks(q, i, j)
  }

  predicate Solution(n: nat, q: seq<int>) { |q| == n && Peaceful(n, q) }

  ghost predicate FirstDiffer(a: seq<int>, b: seq<int>, k: nat) {
    k < |a| && k < |b| && a[..k] == b[..k] && a[k] < b[k]
  }

  /** a comes before b in lexicographic order. */
  ghost predicate Before(a: seq<int>, b: seq<int>) {
    exists k: nat :: FirstDiffer(a, b, k)
  }

  ghost predicate Sorted(list: seq<seq<int>>) {
    forall i, j :: 0 <= i < j < |list| ==> Before(list[i], list[j])
  }

  // ----- the solutions, listed by depth-first search -----

  /** All solutions that begin with q, in order. */
  function AllFrom(n: nat, q: seq<int>): seq<seq<int>>
    decreases n + 1 - |q|, n + 1
  {
    if |q| >= n then [q] else From(n, q, 0)
  }

  /** Those whose next queen stands at column c or further right. */
  function From(n: nat, q: seq<int>, c: nat): seq<seq<int>>
    requires |q| < n
    decreases n + 1 - |q|, n - c
  {
    if c >= n then []
    else if Peaceful(n, q + [c]) then AllFrom(n, q + [c]) + From(n, q, c + 1)
    else From(n, q, c + 1)
  }

  /** What is still to be listed while the search stands at x: behind the last queen, then behind the one before, and so on. */
  function Pending(n: nat, x: seq<int>): seq<seq<int>>
    requires |x| <= n && forall i :: 0 <= i < |x| ==> -1 <= x[i]
  {
    if x == [] then []
    else From(n, x[..|x| - 1], x[|x| - 1] + 1) + Pending(n, x[..|x| - 1])
  }

  // ----- termination -----

  /** a times w, by adding; 0 for a negative a. */
  function Times(a: int, w: nat): (p: nat)
    ensures 0 < a && 0 < w ==> 0 < p
    decreases a
  {
    if a <= 0 then 0 else Times(a - 1, w) + w
  }

  lemma {:induction false} TimesOrder(a: int, b: int, w: nat)
    requires a <= b
    ensures Times(a, w) <= Times(b, w)
    decreases b - a
  {
    if a < b { TimesOrder(a, b - 1, w); }
  }

  function Pow(b: nat, e: nat): (p: nat)
    requires 0 < b
    ensures 0 < p
  {
    if e == 0 then 1 else Times(b, Pow(b, e - 1))
  }

  /** The columns left to try, those of early rows weighing more than all later rows together. */
  function Potential(n: nat, x: seq<int>): nat
    requires |x| <= n
  {
    if x == [] then 0 else Potential(n, x[..|x| - 1]) + Times(n - x[|x| - 1], Pow(n + 2, n - |x|))
  }

  /** Moving the last queen to the right lowers the potential. */
  lemma {:induction false} MoveRight(n: nat, x: seq<int>, c: int)
    requires 0 < |x| <= n && x[|x| - 1] < c <= n
    ensures Potential(n, x[|x| - 1 := c]) + Pow(n + 2, n - |x|) <= Potential(n, x)
  {
    var k := |x| - 1;
    assert x[k := c][..k] == x[..k];
    TimesOrder(n - c + 1, n - x[k], Pow(n + 2, n - |x|));
  }

  /** So much that starting a new row does not make up for it. */
  lemma {:induction false} NewRow(n: nat, x: seq<int>)
    requires 0 < |x| < n
    ensures Potential(n, x + [-1]) < Potential(n, x) + Pow(n + 2, n - |x|)
  {
    assert (x + [-1])[..|x|] == x;
    var w := Pow(n + 2, n - |x| - 1);
    assert Pow(n + 2, n - |x|) == Times(n + 2, w) == Times(n + 1, w) + w;
  }

  // ----- the list is right -----

  lemma PeacefulPrefix(n: nat, q: seq<int>, k: nat)
    requires Peaceful(n, q) && k <= |q|
    ensures Peaceful(n, q[..k])
  {
    forall i, j | 0 <= i < j < k ensures !Attacks(q[..k], i, j) {
      assert !Attacks(q, i, j);
    }
  }

  lemma NextPeaceful(n: nat, q: seq<int>, s: seq<int>)
    requires Solution(n, s) && q <= s && |q| < n
    ensures Peaceful(n, q + [s[|q|]])
  {
    PeacefulPrefix(n, s, |q| + 1);
    assert s[..|q| + 1] == q + [s[|q|]];
  }

  lemma {:induction false} AllFromMembers(n: nat, q: seq<int>, s: seq<int>)
    requires Peaceful(n, q)
    ensures s in AllFrom(n, q) <==> Solution(n, s) && q <= s
    decreases n + 1 - |q|, n + 1
  {
    if |q| < n {
      FromMembers(n, q, 0, s);
    } else if |s| == n && q <= s {
      assert s == s[..|q|] == q;
    }
  }

  lemma {:induction false} FromMembers(n: nat, q: seq<int>, c: nat, s: seq<int>)
    requires Peaceful(n, q) && |q| < n
    ensures s in From(n, q, c) <==> Solution(n, s) && q <= s && s[|q|] >= c
    decreases n + 1 - |q|, n - c
  {
    if c < n {
      FromMembers(n, q, c + 1, s);
      if |q| < |s| { LongerPrefix(q, c, s); }
      if Peaceful(n, q + [c]) {
        AllFromMembers(n, q + [c], s);
        assert s in From(n, q, c) <==> s in AllFrom(n, q + [c]) || s in From(n, q, c + 1);
      } else if Solution(n, s) && q <= s {
        NextPeaceful(n, q, s);
      }
    }
  }

  lemma LongerPrefix(q: seq<int>, c: int, s: seq<int>)
    requires |q| < |s|
    ensures q + [c] <= s <==> q <= s && s[|q|] == c
  {
    if q <= s { assert s[..|q| + 1] == q + [s[|q|]]; }
  }

  /** Lists whose members agree up to q and then differ in the next queen are in order. */
  lemma SortedCat(a: seq<seq<int>>, b: seq<seq<int>>, q: seq<int>, c: int)
    requires Sorted(a) && Sorted(b)
    requires forall s :: s in a ==> |s| > |q| && s[..|q|] == q && s[|q|] == c
    requires forall s :: s in b ==> |s| > |q| && s[..|q|] == q && s[|q|] > c
    ensures Sorted(a + b)
  {
    forall i, j | 0 <= i < j < |a + b| ensures Before((a + b)[i], (a + b)[j]) {
      if i < |a| <= j {
        assert a[i] in a && b[j - |a|] in b;
        assert FirstDiffer(a[i], b[j - |a|], |q|);
      } else if j < |a| {
        assert Before(a[i], a[j]);
      } else {
        assert Before(b[i - |a|], b[j - |a|]);
      }
    }
  }

  lemma {:induction false} AllFromSorted(n: nat, q: seq<int>)
    requires Peaceful(n, q)
    ensures Sorted(AllFrom(n, q))
    decreases n + 1 - |q|, n + 1
  {
    if |q| < n { FromSorted(n, q, 0); }
  }

  lemma {:induction false} FromSorted(n: nat, q: seq<int>, c: nat)
    requires Peaceful(n, q) && |q| < n
    ensures Sorted(From(n, q, c))
    decreases n + 1 - |q|, n - c
  {
    if c < n {
      FromSorted(n, q, c + 1);
      if Peaceful(n, q + [c]) {
        AllFromSorted(n, q + [c]);
        forall s | s in AllFrom(n, q + [c]) ensures |s| > |q| && s[..|q|] == q && s[|q|] == c {
          AllFromMembers(n, q + [c], s);
        }
        forall s | s in From(n, q, c + 1) ensures |s| > |q| && s[..|q|] == q && s[|q|] > c {
          FromMembers(n, q, c + 1, s);
        }
        SortedCat(AllFrom(n, q + [c]), From(n, q, c + 1), q, c);
      }
    }
  }

  /** The list holds every solution, nothing else, in strictly increasing order. */
  lemma {:induction false} AllSolutions(n: nat)
    ensures Sorted(AllFrom(n, []))
    ensures forall s :: s in AllFrom(n, []) <==> Solution(n, s)
    ensures forall s :: s in AllFrom(n, []) <==> (
      && |s| == n && (forall i :: 0 <= i < n ==> 0 <= s[i] < n)
      && forall i, j :: 0 <= i < j < n ==> s[i] != s[j] && s[i] - i != s[j] - j && s[i] + i != s[j] + j)
  {
    AllFromSorted(n, []);
    forall s: seq<int> ensures s in AllFrom(n, []) <==> Solution(n, s) {
      AllFromMembers(n, [], s);
    }
    forall s: seq<int>, i, j | 0 <= i < j < |s|
      ensures Attacks(s, i, j) <==> s[i] == s[j] || s[i] - i == s[j] - j || s[i] + i == s[j] + j
    {
      AttackLines(s, i, j);
    }
  }

  /** Two queens attack each other in a column or along a diagonal. */
  lemma AttackLines(q: seq<int>, i: nat, j: nat)
    requires i < j < |q|
    ensures Attacks(q, i, j) <==> q[i] == q[j] || q[i] - i == q[j] - j || q[i] + i == q[j] + j
  {
  }

  // ----- the program -----

  /** PLACE: may the queen of row k stand where it does? */
  method Place(k: nat, x: array<int>, ghost n: nat) returns (ok: bool)
    requires k < x.Length && k < n && Peaceful(n, x[..k]) && 0 <= x[k] < n
    ensures ok <==> Peaceful(n, x[..k] + [x[k]])
  {
    ghost var q := x[..k] + [x[k]];
    var i := 0;
    while i < k
      invariant 0 <= i <= k
      invariant forall a :: 0 <= a < i ==> !Attacks(q, a, k)
    {
      if x[i] == x[k] || Abs(x[i] - x[k]) == Abs(i - k) {
        assert Attacks(q, i, k);
        return false;
      }
      i := i + 1;
    }
    forall a, b | 0 <= a < b < |q| ensures !Attacks(q, a, b) {
      if b < k { assert !Attacks(x[..k], a, b); }
    }
    ok := true;
  }

  /** The inner loop: the next column from x[k] on where the queen of row k is not attacked, or n. */
  method NextColumn(n: nat, x: array<int>, k: nat, ghost q: seq<int>)
    requires x.Length == n && k < n && x[..k] == q && Peaceful(n, q) && 0 <= x[k] <= n
    modifies x
    ensures old(x[k]) <= x[k] <= n && x[..k] == q
    ensures x[k] < n ==> Peaceful(n, q + [x[k]])
    ensures From(n, q, x[k]) == From(n, q, old(x[k]))
  {
    while true
      invariant old(x[k]) <= x[k] <= n && x[..k] == q
      invariant From(n, q, x[k]) == From(n, q, old(x[k]))
      decreases n - x[k]
    {
      if x[k] >= n { break; }
      var ok := Place(k, x, n);
      if ok { break; }
      x[k] := x[k] + 1;
    }
  }

  /** The state of the search: the first k queens are at peace, the last one waits to be moved on. */
  ghost predicate Standing(n: nat, x: seq<int>) {
    0 < |x| <= n && Peaceful(n, x[..|x| - 1]) && -1 <= x[|x| - 1] < n
    && (x[|x| - 1] >= 0 ==> Peaceful(n, x))
  }

  /** A row as it is printed: columns are counted from 1. */
  ghost predicate Printed(row: seq<int>, q: seq<int>) {
    |row| == |q| && forall i :: 0 <= i < |q| ==> row[i] == q[i] + 1
  }

  /** Every row printed is a solution with columns counted from 1. */
  ghost predicate Shows(rows: seq<seq<int>>, list: seq<seq<int>>) {
    |rows| == |list| && forall i :: 0 <= i < |rows| ==> Printed(rows[i], list[i])
  }

  /** One round of the outer loop: what x becomes, and the solution found, if any. */
  ghost predicate Round(n: nat, x: seq<int>, y: seq<int>, found: seq<seq<int>>)
    requires Standing(n, x)
  {
    && (y == [] || Standing(n, y)) && |found| <= 1
    && Pending(n, x) == found + Pending(n, y)
    && Potential(n, y) < Potential(n, x)
  }

  lemma PendingEnd(n: nat, q: seq<int>, b: int)
    requires |q| < n && -1 <= b && forall i :: 0 <= i < |q| ==> -1 <= q[i]
    ensures Pending(n, q + [b]) == From(n, q, b + 1) + Pending(n, q)
  {
    assert (q + [b])[..|q|] == q;
  }

  lemma Regroup(a: seq<seq<int>>, b: seq<seq<int>>, c: seq<seq<int>>)
    ensures (a + b) + c == a + (b + c)
  {
  }

  /** The last queen moves from column b to column c, the next one where it is at peace. */
  ghost predicate Moved(n: nat, q: seq<int>, b: int, c: int) {
    && |q| < n && Peaceful(n, q) && -1 <= b < c < n && Peaceful(n, q + [c])
    && From(n, q, b + 1) == From(n, q, c)
  }

  lemma {:induction false} MovedPending(n: nat, q: seq<int>, b: int, c: int)
    requires Moved(n, q, b, c)
    ensures Pending(n, q + [b]) == AllFrom(n, q + [c]) + Pending(n, q + [c])
  {
    PendingEnd(n, q, b);
    PendingEnd(n, q, c);
    Regroup(AllFrom(n, q + [c]), From(n, q, c + 1), Pending(n, q));
  }

  lemma MovedPotential(n: nat, q: seq<int>, b: int, c: int)
    requires Moved(n, q, b, c)
    ensures Potential(n, q + [c]) + Pow(n + 2, n - |q| - 1) <= Potential(n, q + [b])
  {
    assert (q + [b])[|q| := c] == q + [c];
    MoveRight(n, q + [b], c);
  }

  lemma StandingAt(n: nat, q: seq<int>, b: int)
    requires |q| < n && Peaceful(n, q) && -1 <= b < n && (b >= 0 ==> Peaceful(n, q + [b]))
    ensures Standing(n, q + [b])
  {
    assert (q + [b])[..|q|] == q;
  }

  /** The last row is filled: a solution. */
  lemma {:induction false} RoundFound(n: nat, q: seq<int>, b: int, c: int)
    requires Moved(n, q, b, c) && |q| == n - 1 && Standing(n, q + [b])
    ensures Round(n, q + [b], q + [c], [q + [c]])
  {
    MovedPending(n, q, b, c);
    MovedPotential(n, q, b, c);
    StandingAt(n, q, c);
  }

  /** A row is filled and the next one begins. */
  lemma {:induction false} RoundDown(n: nat, q: seq<int>, b: int, c: int)
    requires Moved(n, q, b, c) && |q| < n - 1 && Standing(n, q + [b])
    ensures Round(n, q + [b], q + [c] + [-1], [])
  {
    MovedPending(n, q, b, c);
    MovedPotential(n, q, b, c);
    PendingEnd(n, q + [c], -1);
    NewRow(n, q + [c]);
    StandingAt(n, q + [c], -1);
  }

  lemma StandingBack(n: nat, x: seq<int>)
    requires Standing(n, x) && |x| > 1
    ensures Standing(n, x[..|x| - 1])
  {
    var k := |x| - 1;
    PeacefulPrefix(n, x[..k], k - 1);
    assert x[..k][..k - 1] == x[..k - 1] && x[..k][k - 1] == x[k - 1];
  }

  lemma PotentialBack(n: nat, x: seq<int>)
    requires 0 < |x| <= n && x[|x| - 1] < n
    ensures Potential(n, x[..|x| - 1]) < Potential(n, x)
  {
    assert 0 < Times(n - x[|x| - 1], Pow(n + 2, n - |x|));
  }

  /** No column is left in this row: back to the one before. */
  lemma RoundBack(n: nat, x: seq<int>)
    requires Standing(n, x) && From(n, x[..|x| - 1], x[|x| - 1] + 1) == []
    ensures Round(n, x, x[..|x| - 1], [])
  {
    if |x| > 1 { StandingBack(n, x); }
    PotentialBack(n, x);
    PendingBack(n, x);
  }

  lemma PendingBack(n: nat, x: seq<int>)
    requires 0 < |x| <= n && forall i :: 0 <= i < |x| ==> -1 <= x[i]
    requires From(n, x[..|x| - 1], x[|x| - 1] + 1) == []
    ensures Pending(n, x) == [] + Pending(n, x[..|x| - 1])
  {
  }

  /** What a round makes of the search, by where the queen of row |q| came to stand. */
  ghost predicate RoundTo(n: nat, q: seq<int>, b: int, c: int, y: seq<int>, found: seq<seq<int>>) {
    && |q| < n && Standing(n, q + [b])
    && (c >= n ==> y == q && found == [])
    && (c < n && |q| == n - 1 ==> y == q + [c] && found == [y])
    && (c < n && |q| < n - 1 ==> y == q + [c] + [-1] && found == [])
  }

  lemma RoundDone(n: nat, q: seq<int>, b: int, c: int, y: seq<int>, found: seq<seq<int>>)
    requires RoundTo(n, q, b, c, y, found) && Peaceful(n, q) && -1 <= b < c <= n
    requires From(n, q, b + 1) == From(n, q, c) && (c < n ==> Peaceful(n, q + [c]))
    ensures Round(n, q + [b], y, found)
  {
    if c >= n {
      assert (q + [b])[..|q|] == q && From(n, q, c) == [];
      RoundBack(n, q + [b]);
    } else if |q| == n - 1 {
      RoundFound(n, q, b, c);
    } else {
      RoundDown(n, q, b, c);
    }
  }

  /** The queen of row k moves on to the next column where it is at peace, or off the board. */
  method Advance(n: nat, x: array<int>, k: nat, ghost q: seq<int>, ghost b: int)
    requires x.Length == n && k < n && x[..k] == q && x[k] == b && Peaceful(n, q) && -1 <= b < n
    modifies x
    ensures x[..k] == q && b < x[k] <= n && From(n, q, b + 1) == From(n, q, x[k])
    ensures x[k] < n ==> Peaceful(n, q + [x[k]])
  {
    x[k] := x[k] + 1;
    assert x[..k] == q;
    NextColumn(n, x, k, q);
  }

  method StartRow(x: array<int>, k: nat)
    requires k < x.Length
    modifies x
    ensures x[..k + 1] == old(x[..k]) + [-1]
  {
    ghost var before := x[..k];
    x[k] := -1;
    assert x[..k] == before;
  }

  /** One round of the outer loop without the printing. */
  method Move(n: nat, x: array<int>, k: nat) returns (k': int, found: bool)
    requires x.Length == n && k < n && Standing(n, x[..k + 1])
    modifies x
    ensures -1 <= k' < n
    ensures Round(n, old(x[..k + 1]), x[..k' + 1], if found then [x[..]] else [])
  {
    ghost var q, b := x[..k], x[k];
    StandingParts(n, x[..k + 1], q, b);
    Advance(n, x, k, q, b);
    ghost var c := x[k];
    ghost var y, solutions;
    k', found, y, solutions := NextRow(n, x, k, q, c);
    RoundDone(n, q, b, c, y, solutions);
  }

  lemma StandingParts(n: nat, x: seq<int>, q: seq<int>, b: int)
    requires Standing(n, x) && q == x[..|x| - 1] && b == x[|x| - 1]
    ensures x == q + [b] && Peaceful(n, q) && -1 <= b < n
  {
  }

  /** Back a row, a solution, or a row further. */
  method NextRow(n: nat, x: array<int>, k: nat, ghost q: seq<int>, ghost c: int)
    returns (k': int, found: bool, ghost y: seq<int>, ghost solutions: seq<seq<int>>)
    requires x.Length == n && k < n && x[..k] == q && x[k] == c
    modifies x
    ensures -1 <= k' < n && y == x[..k' + 1] && solutions == if found then [x[..]] else []
    ensures c >= n ==> y == q && solutions == []
    ensures c < n && k == n - 1 ==> y == q + [c] && solutions == [y]
    ensures c < n && k < n - 1 ==> y == q + [c] + [-1] && solutions == []
  {
    assert x[..k + 1] == q + [c];
    found := false;
    if x[k] >= n {
      k' := k - 1;
    } else if k == n - 1 {
      assert x[..k + 1] == x[..];
      k', found := k, true;
    } else {
      k' := k + 1;
      StartRow(x, k');
    }
    y, solutions := x[..k' + 1], if found then [x[..]] else [];
  }

  /** Printed so far and still pending make up the whole list. */
  ghost predicate Progress(n: nat, rows: seq<seq<int>>, list: seq<seq<int>>, x: seq<int>)
    requires x == [] || Standing(n, x)
  {
    list + Pending(n, x) == AllFrom(n, []) && Shows(rows, list)
  }

  lemma {:induction false} StartProgress(n: nat)
    requires n >= 1
    ensures Standing(n, [-1]) && Progress(n, [], [], [-1])
  {
    assert [-1][..0] == [];
    assert Pending(n, [-1]) == From(n, [], 0) + [];
  }

  lemma {:induction false} RoundProgress(n: nat, rows: seq<seq<int>>, list: seq<seq<int>>, x: seq<int>, y: seq<int>, found: seq<seq<int>>,
                                         more: seq<seq<int>>)
    requires Standing(n, x) && Progress(n, rows, list, x) && Round(n, x, y, found) && Shows(more, found)
    ensures Progress(n, rows + more, list + found, y)
  {
    Regroup(list, found, Pending(n, y));
  }

  function Measure(n: nat, x: seq<int>): int
    requires |x| <= n
  {
    if x == [] then -1 else Potential(n, x)
  }

  /** The printing loop. */
  method PrintRow(x: array<int>) returns (row: seq<int>)
    ensures Printed(row, x[..])
  {
    row := [];
    var i := 0;
    while i < x.Length
      invariant 0 <= i <= x.Length && Printed(row, x[..i])
    {
      row := row + [x[i] + 1];
      i := i + 1;
    }
    assert x[..x.Length] == x[..];
  }

  /** NQUEENS prints each solution once, in lexicographic order, and their number. */
  method NQueens(n: nat) returns (rows: seq<seq<int>>, m: nat)
    requires n >= 1
    ensures Shows(rows, AllFrom(n, [])) && m == |AllFrom(n, [])|
  {
    var x := new int[n];
    x[0] := -1;
    var k: int := 0;
    rows, m := [], 0;
    ghost var list: seq<seq<int>> := [];
    ghost var y := x[..1];
    assert y == [-1];
    StartProgress(n);
    while k >= 0
      invariant -1 <= k < n && y == x[..k + 1] && (y == [] || Standing(n, y))
      invariant Progress(n, rows, list, y) && m == |rows|
      decreases Measure(n, y)
    {
      var found;
      k, found := Move(n, x, k);
      ghost var z := x[..k + 1];
      ghost var more, before := if found then [x[..]] else [], rows;
      ghost var printed: seq<seq<int>> := [];
      if found {
        var row := PrintRow(x);
        rows, printed := rows + [row], [row];
        m := m + 1;
      }
      RoundProgress(n, before, list, y, z, more, printed);
      list, y := list + more, z;
    }
  }
}
