/** dirty_seglist_info: eight segment bitmaps with their population counts. */
module DirtySeglist {
  import opened Bitmaps

  /** Log types (f2fs.h) double as the first six dirty kinds (segment.h). */
  const HOT_DATA := 0
  const WARM_DATA := 1
  const COLD_DATA := 2
  const HOT_NODE := 3
  const WARM_NODE := 4
  const COLD_NODE := 5
  const NR_LOGS := 6
  const DIRTY := 6
  const PRE := 7
  const NR_DIRTY := 8

  datatype Marks = Marks(maps: seq<seq<bool>>, nr: seq<int>)

  ghost predicate Shape(m: Marks, segs: nat) {
    |m.maps| == NR_DIRTY && |m.nr| == NR_DIRTY && forall t :: 0 <= t < NR_DIRTY ==> |m.maps[t]| == segs
  }

  /** Every counter is the number of bits set in its bitmap. */
  ghost predicate MarksOk(m: Marks, segs: nat) {
    Shape(m, segs) && forall t :: 0 <= t < NR_DIRTY ==> m.nr[t] == Ones(m.maps[t])
  }

  /** test_and_set_bit with its counter. */
  function Mark(m: Marks, ghost segs: nat, kind: nat, k: nat): (r: Marks)
    requires Shape(m, segs) && kind < NR_DIRTY && k < segs
    ensures Shape(r, segs)
    ensures forall t, i :: 0 <= t < NR_DIRTY && 0 <= i < segs ==>
      r.maps[t][i] == (m.maps[t][i] || (t == kind && i == k))
  {
    if m.maps[kind][k] then m
    else Marks(m.maps[kind := m.maps[kind][k := true]], m.nr[kind := m.nr[kind] + 1])
  }

  /** test_and_clear_bit with its counter. */
  function Unmark(m: Marks, ghost segs: nat, kind: nat, k: nat): (r: Marks)
    requires Shape(m, segs) && kind < NR_DIRTY && k < segs
    ensures Shape(r, segs)
    ensures forall t, i :: 0 <= t < NR_DIRTY && 0 <= i < segs ==>
      r.maps[t][i] == (m.maps[t][i] && !(t == kind && i == k))
  {
    if !m.maps[kind][k] then m
    else Marks(m.maps[kind := m.maps[kind][k := false]], m.nr[kind := m.nr[kind] - 1])
  }

  lemma MarkOk(m: Marks, segs: nat, kind: nat, k: nat)
    requires MarksOk(m, segs) && kind < NR_DIRTY && k < segs
    ensures MarksOk(Mark(m, segs, kind, k), segs)
  {
    OnesUpdate(m.maps[kind], k, true);
  }

  lemma UnmarkOk(m: Marks, segs: nat, kind: nat, k: nat)
    requires MarksOk(m, segs) && kind < NR_DIRTY && k < segs
    ensures MarksOk(Unmark(m, segs, kind, k), segs)
  {
    OnesUpdate(m.maps[kind], k, false);
  }

  /** A segment is DIRTY iff it is marked under the log type `typ` and under no other. */
  ghost predicate TypeMarks(m: Marks, segs: nat, typ: nat, k: nat)
    requires Shape(m, segs) && k < segs
  {
    forall t :: 0 <= t < NR_LOGS ==> (m.maps[t][k] <==> m.maps[DIRTY][k] && t == typ)
  }

  ghost predicate NoMarks(m: Marks, segs: nat, k: nat)
    requires Shape(m, segs) && k < segs
  {
    forall t :: 0 <= t < NR_DIRTY ==> !m.maps[t][k]
  }

  /** clear_prefree_segments: every PRE bit is cleared, run by run. */
  function ClearPre(m: Marks, ghost segs: nat): (r: Marks)
    requires Shape(m, segs)
  {
    Marks(m.maps[PRE := seq(|m.maps[PRE]|, _ => false)], m.nr[PRE := m.nr[PRE] - Ones(m.maps[PRE])])
  }

  lemma ClearPreOk(m: Marks, segs: nat)
    requires MarksOk(m, segs)
    ensures MarksOk(ClearPre(m, segs), segs)
    ensures forall t, i :: 0 <= t < NR_DIRTY && 0 <= i < segs ==>
      ClearPre(m, segs).maps[t][i] == (m.maps[t][i] && t != PRE)
  {
    OnesZero(ClearPre(m, segs).maps[PRE]);
  }

  /** How many of the log types `0..n` mark segment k. */
  function TypeCount(m: Marks, n: nat): int
    requires |m.nr| == NR_DIRTY && n <= NR_LOGS
  {
    if n == 0 then 0 else TypeCount(m, n - 1) + m.nr[n - 1]
  }

  /** Prefix of the DIRTY map restricted to types below n. */
  function Restrict(m: Marks, ghost segs: nat, typ: seq<nat>, n: nat): (r: seq<bool>)
    requires Shape(m, segs) && |typ| == segs
    ensures |r| == segs
  {
    seq(|typ|, i requires 0 <= i < |typ| => m.maps[DIRTY][i] && typ[i] < n)
  }

  lemma {:induction false} DisjointOnes(a: seq<bool>, b: seq<bool>)
    requires |a| == |b| && forall i :: 0 <= i < |a| ==> !(a[i] && b[i])
    ensures Ones(Union(a, b)) == Ones(a) + Ones(b)
  {
    if a != [] {
      var last := |a| - 1;
      assert Union(a, b)[..last] == Union(a[..last], b[..last]);
      DisjointOnes(a[..last], b[..last]);
    }
  }

  lemma {:induction false} TypeCountIsRestrict(m: Marks, segs: nat, typ: seq<nat>, n: nat)
    requires MarksOk(m, segs) && |typ| == segs && n <= NR_LOGS
    requires forall k :: 0 <= k < segs ==> TypeMarks(m, segs, typ[k], k)
    ensures TypeCount(m, n) == Ones(Restrict(m, segs, typ, n))
  {
    if n == 0 {
      OnesZero(Restrict(m, segs, typ, 0));
    } else {
      TypeCountIsRestrict(m, segs, typ, n - 1);
      var a, b := Restrict(m, segs, typ, n - 1), m.maps[n - 1];
      forall i | 0 <= i < segs ensures !(a[i] && b[i]) && (a[i] || b[i]) == Restrict(m, segs, typ, n)[i] {
        assert TypeMarks(m, segs, typ[i], i);
      }
      DisjointOnes(a, b);
      assert Union(a, b) == Restrict(m, segs, typ, n);
    }
  }

  /** dirty_segments(): the six typed counters add up to the DIRTY counter. */
  lemma TypedCountersAddUp(m: Marks, segs: nat, typ: seq<nat>)
    requires MarksOk(m, segs) && |typ| == segs && forall k :: 0 <= k < segs ==> typ[k] < NR_LOGS
    requires forall k :: 0 <= k < segs ==> TypeMarks(m, segs, typ[k], k)
    ensures m.nr[DIRTY] == m.nr[0] + m.nr[1] + m.nr[2] + m.nr[3] + m.nr[4] + m.nr[5]
  {
    TypeCountIsRestrict(m, segs, typ, NR_LOGS);
    assert Restrict(m, segs, typ, NR_LOGS) == m.maps[DIRTY];
    assert TypeCount(m, 6) == TypeCount(m, 4) + m.nr[4] + m.nr[5];
    assert TypeCount(m, 4) == TypeCount(m, 2) + m.nr[2] + m.nr[3];
    assert TypeCount(m, 2) == TypeCount(m, 0) + m.nr[0] + m.nr[1];
  }
}
