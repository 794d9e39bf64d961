/** The searches behind an allocation: a free segment for LFS, a victim segment for SSR. */
module SegmentPolicy {
  import opened Bitmaps
  import opened Geometry
  import opened FreeSegmap
  import opened SitInfo

  ghost predicate SomeFree(secUsed: seq<bool>) {
    exists j :: 0 <= j < |secUsed| && !secUsed[j]
  }

  /** The free segments right of `seg` in its own section. */
  ghost predicate FreeToTheRight(v: Volume, used: seq<bool>, seg: nat, k: nat)
    requires 0 < v.segsPerSec
  {
    seg < k < |used| && !used[k] && v.SecOf(k) == v.SecOf(seg)
  }

  lemma {:induction false} SameSection(v: Volume, seg: nat, k: nat)
    requires v.Valid() && seg <= k
    ensures k - seg < v.segsPerSec - seg % v.segsPerSec <==> v.SecOf(k) == v.SecOf(seg)
  {
    var d := v.segsPerSec;
    assert seg == (seg / d) * d + seg % d;
    SectionOf(v, k, v.SecOf(seg));
  }

  lemma {:induction false} NextInSection(v: Volume, seg: nat)
    requires v.Valid() && (seg + 1) % v.segsPerSec != 0
    ensures v.SecOf(seg + 1) == v.SecOf(seg)
  {
    var j := v.SecOf(seg);
    SectionOf(v, seg, j);
    SectionOf(v, seg + 1, j);
    if seg + 1 == j * v.segsPerSec + v.segsPerSec {
      assert seg + 1 == (j + 1) * v.segsPerSec + 0;
      DivUnique(seg + 1, v.segsPerSec, j + 1, 0);
    }
  }

  /** The free section nearest to the left of `start`, or, with none there, the first one of the volume. */
  ghost predicate NearestLeft(secUsed: seq<bool>, start: int, sec: nat) {
    && sec < |secUsed| && !secUsed[sec]
    && (sec <= start ==> forall j :: sec < j <= start && j < |secUsed| ==> secUsed[j])
    && (sec > start ==> forall j :: 0 <= j < sec ==> secUsed[j])
  }

  /** What a pass that has not turned left before finds: to the right of the hint, else wrapped, else to its left. */
  ghost predicate Pass(secUsed: seq<bool>, hint: int, left: bool, sec: nat) {
    && 0 <= hint && sec < |secUsed|
    && if NextZero(secUsed, hint) < |secUsed| then sec == NextZero(secUsed, hint)
       else if !left then sec == NextZero(secUsed, 0) else NearestLeft(secUsed, hint - 1, sec)
  }

  /** Scanning sections leftwards from `start`, wrapping to the first free section of the volume. */
  method ScanLeft(secUsed: seq<bool>, start: nat) returns (sec: nat)
    requires start < |secUsed| && SomeFree(secUsed)
    ensures sec < |secUsed| && !secUsed[sec]
    ensures NearestLeft(secUsed, start, sec)
  {
    sec := start;
    while secUsed[sec]
      invariant sec <= start && forall j :: sec < j <= start ==> secUsed[j]
      decreases sec
    {
      if sec > 0 {
        sec := sec - 1;
      } else {
        sec := NextZero(secUsed, 0);
        return;
      }
    }
  }

  /**
   * One pass of find_other_zone.  A pass that runs off the right end wraps (ALLOC_RIGHT) or turns
   * left (ALLOC_LEFT); once turned, later passes keep to the left.
   */
  method FindSection(secUsed: seq<bool>, hint: nat, left: bool, goLeft: bool, leftStart: nat)
    returns (sec: nat, goLeft': bool, leftStart': nat)
    requires hint <= |secUsed| && SomeFree(secUsed)
    requires hint < |secUsed| || !left
    requires goLeft ==> left && leftStart < |secUsed|
    ensures sec < |secUsed| && !secUsed[sec]
    ensures goLeft' ==> left && leftStart' < |secUsed| && leftStart' == sec
    ensures goLeft ==> goLeft'
    ensures !goLeft ==> Pass(secUsed, hint, left, sec) && (goLeft' <==> left && NextZero(secUsed, hint) == |secUsed|)
    ensures goLeft && NextZero(secUsed, hint) < |secUsed| ==> NearestLeft(secUsed, leftStart, sec)
  {
    goLeft', leftStart' := goLeft, leftStart;
    sec := NextZero(secUsed, hint);
    if sec >= |secUsed| {
      if !left {
        sec := NextZero(secUsed, 0);
      } else {
        goLeft' := true;
        leftStart' := hint - 1;
      }
    }
    if goLeft' {
      leftStart' := ScanLeft(secUsed, leftStart');
      sec := leftStart';
    }
  }

  lemma ZoneHint(v: Volume, zone: nat)
    requires v.Valid() && zone + 1 < v.Secs() / v.secsPerZone
    ensures (zone + 1) * v.secsPerZone < v.Secs()
  {
    var d := v.secsPerZone;
    assert v.Secs() == (v.Secs() / d) * d + v.Secs() % d;
    MulLe(zone + 2, v.Secs() / d, d);
    assert (zone + 2) * d == (zone + 1) * d + d;
  }

  lemma ZoneStart(v: Volume, sec: nat)
    requires v.Valid()
    ensures (sec / v.secsPerZone) * v.secsPerZone <= sec
    ensures 0 < sec / v.secsPerZone ==> v.secsPerZone <= (sec / v.secsPerZone) * v.secsPerZone
  {
    assert sec == (sec / v.secsPerZone) * v.secsPerZone + sec % v.secsPerZone;
    MulLe(1, sec / v.secsPerZone, v.secsPerZone);
  }

  /** Where the second pass starts when the zone of the first section is taken by some log. */
  function OtherZoneHint(v: Volume, zone: nat, goLeft: bool): int
    requires v.Valid()
  {
    if goLeft then zone * v.secsPerZone - 1
    else if zone + 1 >= v.Secs() / v.secsPerZone then 0
    else (zone + 1) * v.secsPerZone
  }

  /** Reasons to keep the first section found. */
  predicate GiveUp(v: Volume, zone: nat, oldZone: nat, left: bool, goLeft: bool)
    requires v.Valid()
  {
    || v.secsPerZone == 1 || zone == oldZone
    || (left && !goLeft && zone + 1 >= v.Secs() / v.secsPerZone)
    || (left && goLeft && zone == 0)
  }

  lemma HintInRange(v: Volume, sec: nat, oldZone: nat, left: bool, goLeft: bool)
    requires v.Valid() && sec < v.Secs() && (goLeft ==> left)
    requires !GiveUp(v, sec / v.secsPerZone, oldZone, left, goLeft)
    ensures 0 <= OtherZoneHint(v, sec / v.secsPerZone, goLeft) < v.Secs()
  {
    var zone := sec / v.secsPerZone;
    ZoneStart(v, sec);
    if zone + 1 < v.Secs() / v.secsPerZone { ZoneHint(v, zone); }
  }

  /** The first section found is kept, or its zone is avoided. */
  predicate KeepsFirst(v: Volume, sec: nat, seg: nat, left: bool, goLeft: bool, zones: seq<nat>)
    requires v.Valid()
  {
    GiveUp(v, sec / v.secsPerZone, v.ZoneOf(seg), left, goLeft) || sec / v.secsPerZone !in zones
  }

  /**
   * What the zone search takes: what the first pass finds, unless some log has its zone and another zone may be
   * tried; then what a second pass finds from the start of the next zone on, or of the volume.  No other zone
   * is tried when zones are single sections, when the zone is that of the old segment, and in a search to
   * the left from the last zone, or once it has turned left: a second pass would end where the first did.
   */
  ghost predicate Picked(v: Volume, secUsed: seq<bool>, seg: nat, left: bool, zones: seq<nat>, first: nat, sec: nat)
    requires v.Valid()
  {
    var zone, total := first / v.secsPerZone, v.Secs() / v.secsPerZone;
    && Pass(secUsed, v.SecOf(seg), left, first)
    && if zone !in zones || v.secsPerZone == 1 || zone == v.ZoneOf(seg)
          || (left && (zone + 1 >= total || forall j :: v.SecOf(seg) <= j < |secUsed| ==> secUsed[j]))
       then sec == first
       else Pass(secUsed, if zone + 1 >= total then 0 else (zone + 1) * v.secsPerZone, left, sec)
  }

  /** The zone search of get_new_segment: at most two passes. */
  method FindFreeSection(v: Volume, secUsed: seq<bool>, seg: nat, left: bool, zones: seq<nat>)
    returns (sec: nat, ghost first: nat)
    requires v.Valid() && |secUsed| == v.Secs() && SomeFree(secUsed) && v.SecOf(seg) < v.Secs()
    ensures sec < |secUsed| && !secUsed[sec]
    ensures Picked(v, secUsed, seg, left, zones, first, sec)
  {
    var goLeft, leftStart;
    sec, goLeft, leftStart := FindSection(secUsed, v.SecOf(seg), left, false, 0);
    first := sec;
    if KeepsFirst(v, sec, seg, left, goLeft, zones) {
      return;
    }
    HintInRange(v, sec, v.ZoneOf(seg), left, goLeft);
    var hint := OtherZoneHint(v, sec / v.secsPerZone, goLeft);
    if goLeft { FreeBehind(v, secUsed, sec); }
    sec, goLeft, leftStart := FindSection(secUsed, hint, left, goLeft, leftStart);
  }

  /** From the end of the zone before, the search to the right comes to the section itself at the latest. */
  lemma FreeBehind(v: Volume, secUsed: seq<bool>, sec: nat)
    requires v.Valid() && sec < |secUsed| && !secUsed[sec] && 0 <= OtherZoneHint(v, sec / v.secsPerZone, true)
    ensures NextZero(secUsed, OtherZoneHint(v, sec / v.secsPerZone, true)) < |secUsed|
  {
    ZoneStart(v, sec);
  }

  /** The first segment of a free section is free. */
  lemma FreeSectionStart(v: Volume, f: FreeMap, sec: nat)
    requires v.Valid() && FreeOk(v, f) && sec < v.Secs() && !f.secUsed[sec]
    ensures sec * v.segsPerSec < v.segs && !f.used[sec * v.segsPerSec] && v.SecOf(sec * v.segsPerSec) == sec
  {
    SectionBound(v, sec);
    SectionOf(v, sec * v.segsPerSec, sec);
    assert !SectionBusy(v, f.used, sec);
  }

  /** The leftmost free segment further right in the section, or else the first of the section the zone search takes. */
  ghost predicate PickedSegment(v: Volume, f: FreeMap, seg: nat, newSec: bool, left: bool, zones: seq<nat>, r: nat)
    requires v.Valid()
  {
    if !newSec && (exists k: nat :: FreeToTheRight(v, f.used, seg, k)) then
      FreeToTheRight(v, f.used, seg, r) && forall k: nat :: FreeToTheRight(v, f.used, seg, k) ==> r <= k
    else
      && v.SecOf(r) < |f.secUsed| && !f.secUsed[v.SecOf(r)] && r == v.SecOf(r) * v.segsPerSec
      && exists first: nat :: Picked(v, f.secUsed, seg, left, zones, first, v.SecOf(r))
  }

  /**
   * get_new_segment.  It succeeds whenever a section is free, and also when only a segment further
   * right in the section of `seg` is: that segment is then preferred, leftmost first.
   */
  method GetNewSegment(v: Volume, f: FreeMap, seg: nat, newSec: bool, left: bool, zones: seq<nat>) returns (r: nat)
    requires v.Valid() && FreeOk(v, f) && seg < v.segs
    requires SomeFree(f.secUsed) || (!newSec && exists k: nat :: FreeToTheRight(v, f.used, seg, k))
    ensures r < v.segs && !f.used[r]
    ensures PickedSegment(v, f, seg, newSec, left, zones, r)
  {
    if !newSec {
      r := RightNeighbour(v, f.used, seg);
      if r < v.segs { return; }
    }
    SectionInRange(v, seg);
    var sec, first := FindFreeSection(v, f.secUsed, seg, left, zones);
    FreeSectionStart(v, f, sec);
    r := sec * v.segsPerSec;
  }

  /** What the search from `seg + 1` finds decides the question for the whole section. */
  lemma {:induction false} NeighbourSearch(v: Volume, used: seq<bool>, seg: nat, k: nat)
    requires v.Valid() && |used| == v.segs && seg < v.segs
    ensures FreeToTheRight(v, used, seg, k) ==> NextZero(used, seg + 1) <= k
    ensures FreeToTheRight(v, used, seg, k) ==>
      NextZero(used, seg + 1) - seg < v.segsPerSec - seg % v.segsPerSec
  {
    var next := NextZero(used, seg + 1);
    if FreeToTheRight(v, used, seg, k) {
      SameSection(v, seg, k);
    }
  }

  lemma {:induction false} SectionEnd(v: Volume, seg: nat, k: nat)
    requires v.Valid() && (seg + 1) % v.segsPerSec == 0 && seg < k
    ensures v.SecOf(k) != v.SecOf(seg)
  {
    var j := v.SecOf(seg);
    SectionOf(v, seg, j);
    SectionOf(v, k, j);
    var start := j * v.segsPerSec;
    if seg + 1 < start + v.segsPerSec {
      DivUnique(seg + 1, v.segsPerSec, j, seg + 1 - start);
    }
  }

  lemma InsideVolume(v: Volume, seg: nat, k: nat)
    requires v.Valid() && seg < v.segs && seg <= k && k - seg < v.segsPerSec - seg % v.segsPerSec
    ensures v.SecOf(k) == v.SecOf(seg) && k < v.segs
  {
    SameSection(v, seg, k);
    SectionInRange(v, seg);
    SectionOf(v, k, v.SecOf(seg));
  }

  /** The next free segment of the same section, or the volume size when there is none. */
  method RightNeighbour(v: Volume, used: seq<bool>, seg: nat) returns (r: nat)
    requires v.Valid() && |used| == v.segs && seg < v.segs
    ensures r < v.segs ==> FreeToTheRight(v, used, seg, r) && forall k :: FreeToTheRight(v, used, seg, k) ==> r <= k
    ensures r >= v.segs ==> !exists k :: FreeToTheRight(v, used, seg, k)
  {
    r := v.segs;
    if (seg + 1) % v.segsPerSec != 0 {
      var next := NextZero(used, seg + 1);
      forall k: nat | FreeToTheRight(v, used, seg, k)
        ensures next <= k && next - seg < v.segsPerSec - seg % v.segsPerSec
      {
        NeighbourSearch(v, used, seg, k);
      }
      if next - seg < v.segsPerSec - seg % v.segsPerSec {
        InsideVolume(v, seg, next);
        r := next;
      }
    } else {
      forall k: nat | FreeToTheRight(v, used, seg, k) ensures false {
        SectionEnd(v, seg, k);
      }
    }
  }
}
