/** free_segmap_info: which segments and sections are in use, with free counters (segment.h). */
module FreeSegmap {
  import opened Bitmaps
  import opened Geometry

  datatype FreeMap = FreeMap(used: seq<bool>, secUsed: seq<bool>, freeSegs: int, freeSecs: int)

  /** The counters equal the clear bits, and a section is in use iff one of its segments is. */
  ghost predicate FreeOk(v: Volume, f: FreeMap)
    requires v.Valid()
  {
    && |f.used| == v.segs && |f.secUsed| == v.Secs()
    && f.freeSegs == v.segs - Ones(f.used)
    && f.freeSecs == v.Secs() - Ones(f.secUsed)
    && forall j :: 0 <= j < v.Secs() ==> (f.secUsed[j] <==> SectionBusy(v, f.used, j))
  }

  ghost predicate SectionBusy(v: Volume, used: seq<bool>, sec: nat)
    requires v.Valid() && |used| == v.segs
  {
    exists k :: 0 <= k < v.segs && v.SecOf(k) == sec && used[k]
  }

  /** __set_test_and_inuse (and __set_inuse, which is only called on a clear bit). */
  function SetInuse(v: Volume, f: FreeMap, k: nat): (r: FreeMap)
    requires v.Valid() && |f.used| == v.segs && k < v.segs
  {
    if f.used[k] then f else
    var j := v.SecOf(k);
    FreeMap(f.used[k := true], PutBit(f.secUsed, j, true), f.freeSegs - 1,
            if j < |f.secUsed| && f.secUsed[j] then f.freeSecs else f.freeSecs - 1)
  }

  /** __set_test_and_free. */
  function SetFree(v: Volume, f: FreeMap, k: nat): (r: FreeMap)
    requires v.Valid() && |f.used| == v.segs && k < v.segs
  {
    if !f.used[k] then f else
    var j := v.SecOf(k);
    var used := f.used[k := false];
    var next := NextOne(used, j * v.segsPerSec);
    if next >= j * v.segsPerSec + v.segsPerSec && j < |f.secUsed| && f.secUsed[j] then
      FreeMap(used, PutBit(f.secUsed, j, false), f.freeSegs + 1, f.freeSecs + 1)
    else
      FreeMap(used, f.secUsed, f.freeSegs + 1, f.freeSecs)
  }

  /** Scanning from the first segment of a section tells whether the section is busy. */
  lemma {:induction false} SectionScan(v: Volume, used: seq<bool>, sec: nat)
    requires v.Valid() && |used| == v.segs && sec < v.Secs()
    ensures NextOne(used, sec * v.segsPerSec) >= sec * v.segsPerSec + v.segsPerSec <==> !SectionBusy(v, used, sec)
  {
    SectionBound(v, sec);
    var next := NextOne(used, sec * v.segsPerSec);
    if next < sec * v.segsPerSec + v.segsPerSec {
      SectionOf(v, next, sec);
    } else if SectionBusy(v, used, sec) {
      var x :| 0 <= x < v.segs && v.SecOf(x) == sec && used[x];
      SectionOf(v, x, sec);
      assert false;
    }
  }

  lemma {:induction false} SetInuseOk(v: Volume, f: FreeMap, k: nat)
    requires v.Valid() && FreeOk(v, f) && k < v.segs
    ensures FreeOk(v, SetInuse(v, f, k))
    ensures SetInuse(v, f, k).used == f.used[k := true]
  {
    if f.used[k] {
      assert f.used == f.used[k := true];
    } else {
      SectionInRange(v, k);
      var j := v.SecOf(k);
      var r := SetInuse(v, f, k);
      OnesUpdate(f.used, k, true);
      OnesUpdate(f.secUsed, j, true);
      assert r.used[k];
      forall i: nat | i < v.Secs() ensures r.secUsed[i] <==> SectionBusy(v, r.used, i) {
        if i != j { OtherSection(v, f.used, k, i); }
      }
    }
  }

  lemma OtherSection(v: Volume, used: seq<bool>, k: nat, i: nat)
    requires v.Valid() && |used| == v.segs && k < v.segs && i != v.SecOf(k)
    ensures SectionBusy(v, used[k := false], i) <==> SectionBusy(v, used, i)
  {
    if SectionBusy(v, used, i) {
      var x :| 0 <= x < v.segs && v.SecOf(x) == i && used[x];
      assert used[k := false][x];
    }
  }

  lemma {:induction false} SetFreeOk(v: Volume, f: FreeMap, k: nat)
    requires v.Valid() && FreeOk(v, f) && k < v.segs
    ensures FreeOk(v, SetFree(v, f, k))
    ensures SetFree(v, f, k).used == f.used[k := false]
  {
    if !f.used[k] {
      assert f.used == f.used[k := false];
    } else {
      SectionInRange(v, k);
      var j := v.SecOf(k);
      var r := SetFree(v, f, k);
      OnesUpdate(f.used, k, false);
      OnesUpdate(f.secUsed, j, false);
      SectionScan(v, r.used, j);
      forall i: nat | i < v.Secs() ensures r.secUsed[i] <==> SectionBusy(v, r.used, i) {
        if i != j { OtherSection(v, f.used, k, i); }
      }
    }
  }

  /** Freeing one segment, as a step that keeps the map consistent. */
  function Freed(v: Volume, f: FreeMap, k: nat): (r: FreeMap)
    requires v.Valid() && FreeOk(v, f) && k < v.segs
    ensures FreeOk(v, r) && r.used == f.used[k := false]
  {
    SetFreeOk(v, f, k);
    SetFree(v, f, k)
  }

  /** Taking one segment into use, as a step that keeps the map consistent. */
  function Taken(v: Volume, f: FreeMap, k: nat): (r: FreeMap)
    requires v.Valid() && FreeOk(v, f) && k < v.segs
    ensures FreeOk(v, r) && r.used == f.used[k := true]
  {
    SetInuseOk(v, f, k);
    SetInuse(v, f, k)
  }
}
