/**
 * The segment manager as the code keeps it: one object whose tables are updated step by step.
 * Every method is proved against the state machine of SegmentState.dfy and SegmentRuns.dfy; the
 * allocation policy is proved to make only legal choices.
 */
module SegmentManager {
  import opened Bitmaps
  import opened Geometry
  import opened FreeSegmap
  import opened DirtySeglist
  import opened SitInfo
  import opened SegmentState
  import opened SegmentRuns
  import opened SegmentPolicy
  import opened VictimScan
  import opened SegmentMount
  import opened RevBits
  import opened TableLayout
  import opened SitArea

  // ----- what the allocation policy looks at -----

  /** Some list that log t may look in holds an eligible victim. */
  ghost predicate VictimExists(s: State, busySec: int, t: nat, lowOnSections: bool) {
    exists d: nat :: (d == t || (t < HOT_NODE && lowOnSections && d <= t)) && HasEligible(s, busySec, d)
  }

  /** A free segment further right in the section the log is in. */
  ghost predicate RoomInSection(s: State, t: nat) {
    0 < s.v.segsPerSec && t < |s.logs| && exists k: nat :: FreeToTheRight(s.v, s.free.used, s.logs[t].segno, k)
  }

  /** need_SSR; `spare` is the number of overprovisioned sections. */
  ghost predicate WantsSsr(s: State, spare: int) {
    0 < s.v.segsPerSec && PRE < |s.marks.nr| && s.marks.nr[PRE] / s.v.segsPerSec + s.free.freeSecs < spare
  }

  /** An LFS log goes on in the next segment of its section if that is free. */
  ghost predicate PrefersNext(s: State, t: nat) {
    && t < |s.logs| && 0 < s.v.segsPerSec && !s.logs[t].ssr
    && FreeToTheRight(s.v, s.free.used, s.logs[t].segno, s.logs[t].segno + 1)
  }

  /** When allocate_segment_by_default falls back on SSR. */
  ghost predicate TakesVictim(s: State, busySec: int, spare: int, t: nat, force: bool, lowOnSections: bool) {
    && !force && t != WARM_NODE && !PrefersNext(s, t)
    && WantsSsr(s, spare) && VictimExists(s, busySec, t, lowOnSections)
  }

  /** new_curseg finds a segment: a free section, or, unless one is demanded, room in the section of the log. */
  ghost predicate CanOpen(s: State, t: nat, newSec: bool) {
    SomeFree(s.free.secUsed) || (!newSec && RoomInSection(s, t))
  }

  /** allocate_segment_by_default does not run into the BUG of get_new_segment. */
  ghost predicate CanMoveOn(s: State, busySec: int, spare: int, t: nat, force: bool, lowOnSections: bool) {
    TakesVictim(s, busySec, spare, t, force, lowOnSections) || CanOpen(s, t, force)
  }

  /** What get_ssr_segment takes: the best victim of the first list that has one, going down from the log's own. */
  ghost predicate SsrPick(s: State, busySec: int, maxVictimSearch: int, start: nat, t: nat, lowOnSections: bool, k: nat) {
    exists d: nat :: SsrPickFrom(s, busySec, maxVictimSearch, start, t, lowOnSections, d, k)
  }

  ghost predicate SsrPickFrom(s: State, busySec: int, maxVictimSearch: int, start: nat, t: nat, lowOnSections: bool, d: nat, k: nat) {
    && d <= t < NR_LOGS && (d < t ==> t < HOT_NODE && lowOnSections)
    && (forall e: nat :: d < e <= t ==> !HasEligible(s, busySec, e))
    && BestVictim(s, busySec, maxVictimSearch, if d == t then start else 0, d, k)
  }

  /**
   * What new_curseg takes: the next free segment of the section unless a new section is asked for; else the
   * first segment of the section that get_new_segment picks, from the left for warm and cold data and
   * under noheap, from the right otherwise.
   */
  ghost predicate OpenPick(s: State, t: nat, newSec: bool, noHeap: bool, k: nat) {
    && s.v.Valid() && t < |s.logs|
    && PickedSegment(s.v, s.free, s.logs[t].segno, newSec, t != WARM_DATA && t != COLD_DATA && !noHeap, ZonesOf(s.logs), k)
  }

  ghost function ZonesOf(logs: seq<Log>): seq<nat> {
    seq(|logs|, i requires 0 <= i < |logs| => logs[i].zone)
  }

  /** How a log goes on: on its own segment while that has room, else on the victim of SSR, else on a free segment. */
  ghost predicate ByPolicy(s: State, busySec: int, spare: int, maxVictimSearch: int, start: nat, t: nat, force: bool,
                           lowOnSections: bool, noHeap: bool, c: Choice)
  {
    match c
    case Keep => t < |s.logs| && s.logs[t].blkoff < s.v.blocksPerSeg
    case Reuse(k) =>
      && TakesVictim(s, busySec, spare, t, force, lowOnSections)
      && SsrPick(s, busySec, maxVictimSearch, start, t, lowOnSections, k)
    case Open(k) =>
      !TakesVictim(s, busySec, spare, t, force, lowOnSections) && OpenPick(s, t, force, noHeap, k)
  }

  /** The state between the two halves of an allocation. */
  lemma MidOk(s: State, t: nat, prev: OldBlock)
    requires Inv(s) && t < NR_LOGS && OldOk(s, prev)
    ensures var m := Mid(s, t, prev); InvBut(m, Lag(prev)) && m.v == s.v && |m.logs| == NR_LOGS
    ensures Mid(s, t, prev).logs[t].segno == s.logs[t].segno && Mid(s, t, prev).logs[t].blkoff == NextOff(s, t)
    ensures prev.OldBlock? ==> prev.b.seg < s.v.segs
  {
  }

  lemma PolicyReuses(s: State, busySec: int, spare: int, maxVictimSearch: int, start: nat, t: nat, force: bool,
                     lowOnSections: bool, noHeap: bool, k: nat)
    requires TakesVictim(s, busySec, spare, t, force, lowOnSections)
    requires SsrPick(s, busySec, maxVictimSearch, start, t, lowOnSections, k)
    ensures ByPolicy(s, busySec, spare, maxVictimSearch, start, t, force, lowOnSections, noHeap, Reuse(k))
  {
  }

  lemma PolicyOpens(s: State, busySec: int, spare: int, maxVictimSearch: int, start: nat, t: nat, force: bool,
                    lowOnSections: bool, noHeap: bool, k: nat)
    requires !TakesVictim(s, busySec, spare, t, force, lowOnSections) && OpenPick(s, t, force, noHeap, k)
    ensures ByPolicy(s, busySec, spare, maxVictimSearch, start, t, force, lowOnSections, noHeap, Open(k))
  {
  }

  lemma EligibleIsLegal(s: State, busySec: int, t: nat, d: nat, k: nat)
    requires Base(s) && t < NR_LOGS && d < NR_LOGS && SsrSource(t, d) && Eligible(s, busySec, d, k)
    requires s.logs[t].blkoff >= s.v.blocksPerSeg && t != WARM_NODE
    ensures k < s.v.segs && Legal(s, t, Reuse(k))
  {
  }

  /** The SIT area holds the entries of the image. */
  ghost predicate HoldsImage(area: Area, img: Image)
    requires area.Valid()
    reads area
  {
    && |img.sit| <= area.l.MaxKey()
    && (forall i :: 0 <= i < |area.journal| ==> area.journal[i].key < |img.sit|)
    && forall k: nat :: k < |img.sit| ==> Stored(area.l, area.S(), k) == img.sit[k]
  }

  lemma MountBacked(v: Volume, area: Area, img: Image)
    requires ImageOk(v, img) && area.Valid() && HoldsImage(area, img)
    ensures Backed(area.l, Mount(v, img).sit, area.S())
  {
    forall k: nat | k < v.segs ensures Stored(area.l, area.S(), k) == Raw(Entries(img)[k]) {
      assert Stored(area.l, area.S(), k) == img.sit[k];
    }
  }

  lemma FlushedHoldsImage(area: Area, s: State)
    requires Inv(s) && area.Valid() && Backed(area.l, s.sit, area.S()) && forall k :: 0 <= k < |s.sit.dirty| ==> !s.sit.dirty[k]
    ensures HoldsImage(area, ImageOf(s))
  {
  }

  /** The copy of block b that version bits `cp` select still holds what it held. */
  ghost predicate OldCopyKept(l: Layout, b: nat, cp: seq<bool>, before: map<int, seq<RawSit>>, pages: map<int, seq<RawSit>>)
    requires 0 < l.blocksPerSeg
  {
    b < |cp| && CopyAddr(l, b, cp[b]) in before && CopyAddr(l, b, cp[b]) in pages
    && pages[CopyAddr(l, b, cp[b])] == before[CopyAddr(l, b, cp[b])]
  }

  /** flush_sit_entries has come as far as segment n. */
  ghost predicate FlushedBelow(t: Sit, se: seq<SegEntry>, dirty: seq<bool>, n: nat) {
    && |se| == |dirty| == |t.se| == |t.dirty| && n <= |t.se|
    && (forall k :: 0 <= k < n ==> se[k] == (if t.dirty[k] then FlushEntry(t.se[k]) else t.se[k]) && !dirty[k])
    && (forall k :: n <= k < |t.se| ==> se[k] == t.se[k] && dirty[k] == t.dirty[k])
  }

  lemma FlushStep(t: Sit, se: seq<SegEntry>, dirty: seq<bool>, n: nat)
    requires FlushedBelow(t, se, dirty, n) && n < |t.se| && dirty[n]
    ensures var next := NextOne(dirty[n := false], n + 1);
      FlushedBelow(t, se[n := FlushEntry(se[n])], dirty[n := false], next)
    ensures Ones(dirty[n := false]) == Ones(dirty) - 1
  {
    OnesUpdate(dirty, n, false);
    var next := NextOne(dirty[n := false], n + 1);
    forall k | n < k < next ensures !t.dirty[k] {
      assert !dirty[n := false][k];
    }
  }

  lemma AllFlushed(t: Sit, se: seq<SegEntry>, dirty: seq<bool>)
    requires FlushedBelow(t, se, dirty, |t.se|)
    ensures se == Flush(t).se && dirty == Flush(t).dirty && Ones(dirty) == 0
  {
    OnesZero(dirty);
  }

  /** change_curseg's effect, once the victim is off the lists. */
  lemma ReuseAfterStrip(s: State, t: nat, k: nat, s2: State)
    requires Base(s) && t < NR_LOGS && k < s.v.segs && Base(s.(free := SetInuse(s.v, s.free, k)))
    requires s2 == StripMarks(s.(free := SetInuse(s.v, s.free, k)), k)
    ensures ReuseLog(s, t, k) == s2.(sit := SetType(s2.sit, k, t),
      logs := s.logs[t := Log(k, NextZero(Union(s.sit.se[k].ckpt, s.sit.se[k].cur), 0), true, s.v.ZoneOf(k))])
    ensures s2.sit == s.sit && s2.logs == s.logs && s2.v == s.v
  {
  }

  /** What mount computes, from the tables filled in before the segment maps are built. */
  lemma MountParts(v: Volume, img: Image, s: State)
    requires ImageOk(v, img)
    requires s.v == v && s.sit == Sit(Entries(img), seq(v.segs, _ => false), 0, img.validBlocks, SectionTotals(v, Entries(img)))
    requires s.victimSec == seq(v.Secs(), _ => false) && s.logs == Logs(v, img)
    ensures |s.logs| == NR_LOGS && forall t :: 0 <= t < NR_LOGS ==> s.logs[t].segno < v.segs
    ensures |s.sit.se| == v.segs && forall k :: 0 <= k < v.segs ==> s.sit.se[k].typ < NR_LOGS
    ensures var f := UseLogs(v, FreeEmpty(v, s.sit.se, v.segs), s.logs, NR_LOGS);
      Mount(v, img) == s.(free := f, marks := MarkDirty(v, s.sit.se, f.used, s.logs, v.segs))
  {
    LogsInRange(v, img);
  }

  class Manager {
    const v: Volume
    const area: Area
    const overprovisionSecs: int
    const maxVictimSearch: int
    // sit_info
    var sentries: seq<SegEntry>
    var dirtySentries: seq<bool>
    var nrDirtySentries: int
    var written: int
    var secValid: seq<int>
    // free_segmap_info
    var freeSegmap: seq<bool>
    var freeSecmap: seq<bool>
    var freeSegments: int
    var freeSections: int
    // dirty_seglist_info
    var dirtySegmap: seq<seq<bool>>
    var nrDirty: seq<int>
    var victimSecmap: seq<bool>
    // curseg_array
    var cursegs: seq<Log>
    // gc
    var lastVictim: nat
    var curVictimSec: int

    ghost function St(): State
      reads this
    {
      State(v, SitNow(), FreeNow(), MarksNow(), victimSecmap, cursegs)
    }

    /** Clean entries are on disk as they are in memory, and the SIT area is at rest. */
    ghost predicate BackedNow()
      reads this, area
    {
      area.Valid() && Backed(area.l, SitNow(), area.S())
    }

    ghost function SitNow(): Sit
      reads this`sentries, this`dirtySentries, this`nrDirtySentries, this`written, this`secValid
    {
      Sit(sentries, dirtySentries, nrDirtySentries, written, secValid)
    }

    ghost function FreeNow(): FreeMap
      reads this`freeSegmap, this`freeSecmap, this`freeSegments, this`freeSections
    {
      FreeMap(freeSegmap, freeSecmap, freeSegments, freeSections)
    }

    ghost function MarksNow(): Marks
      reads this`dirtySegmap, this`nrDirty
    {
      Marks(dirtySegmap, nrDirty)
    }

    /** build_segment_manager: the tables rebuilt from a checkpoint image. */
    constructor (v: Volume, area: Area, img: Image, overprovisionSecs: int, maxVictimSearch: int)
      requires ImageOk(v, img) && area.Valid() && HoldsImage(area, img)
      ensures this.v == v && this.area == area && St() == Mount(v, img) && BackedNow()
    {
      this.v, this.area, this.overprovisionSecs, this.maxVictimSearch := v, area, overprovisionSecs, maxVictimSearch;
      var read := ReadImage(area, img);
      sentries := Entries(read);
      dirtySentries := seq(v.segs, _ => false);
      nrDirtySentries, written := 0, img.validBlocks;
      secValid := SectionTotals(v, Entries(img));
      var f := AllUsed(v);
      freeSegmap, freeSecmap, freeSegments, freeSections := f.used, f.secUsed, f.freeSegs, f.freeSecs;
      dirtySegmap := seq(NR_DIRTY, _ => seq(v.segs, _ => false));
      nrDirty := seq(NR_DIRTY, _ => 0);
      victimSecmap := seq(v.Secs(), _ => false);
      cursegs := Logs(v, img);
      lastVictim, curVictimSec := 0, -1;
      new;
      MountSegmaps(img);
      MountBacked(v, area, img);
    }

    /** The segment maps of a mount, once everything else is read. */
    method MountSegmaps(ghost img: Image)
      requires ImageOk(v, img) && FreeNow() == AllUsed(v) && victimSecmap == seq(v.Secs(), _ => false)
      requires SitNow() == Sit(Entries(img), seq(v.segs, _ => false), 0, img.validBlocks, SectionTotals(v, Entries(img)))
      requires dirtySegmap == seq(NR_DIRTY, _ => seq(v.segs, _ => false)) && nrDirty == seq(NR_DIRTY, _ => 0)
      requires cursegs == Logs(v, img)
      modifies this`freeSegmap, this`freeSecmap, this`freeSegments, this`freeSections, this`dirtySegmap, this`nrDirty
      ensures St() == Mount(v, img)
    {
      ghost var s := St();
      MountParts(v, img, s);
      BuildSegmaps();
      assert St() == s.(free := FreeNow(), marks := MarksNow());
    }

    /** build_sit_entries: the entries are those of the SIT area. */
    static method ReadImage(area: Area, img: Image) returns (read: Image)
      requires area.Valid() && HoldsImage(area, img)
      ensures read == img
    {
      var sit := area.ReadSit(|img.sit|);
      read := Image(sit, img.logs, img.validBlocks);
      assert sit == img.sit;
    }

    /** build_free_segmap and init_free_segmap. */
    method BuildFreeSegmap()
      requires v.Valid() && |sentries| == v.segs && FreeNow() == AllUsed(v)
      requires |cursegs| == NR_LOGS && forall t :: 0 <= t < NR_LOGS ==> cursegs[t].segno < v.segs
      modifies this`freeSegmap, this`freeSecmap, this`freeSegments, this`freeSections
      ensures FreeNow() == UseLogs(v, FreeEmpty(v, sentries, v.segs), cursegs, NR_LOGS)
    {
      FreeEmptySegments();
      UseLogSegments();
    }

    /** build_free_segmap and build_dirty_segmap. */
    method BuildSegmaps()
      requires v.Valid() && |sentries| == v.segs && FreeNow() == AllUsed(v)
      requires forall k :: 0 <= k < v.segs ==> sentries[k].typ < NR_LOGS
      requires |cursegs| == NR_LOGS && forall t :: 0 <= t < NR_LOGS ==> cursegs[t].segno < v.segs
      requires dirtySegmap == seq(NR_DIRTY, _ => seq(v.segs, _ => false)) && nrDirty == seq(NR_DIRTY, _ => 0)
      modifies this`freeSegmap, this`freeSecmap, this`freeSegments, this`freeSections, this`dirtySegmap, this`nrDirty
      ensures var f := UseLogs(v, FreeEmpty(v, sentries, v.segs), cursegs, NR_LOGS);
        FreeNow() == f && MarksNow() == MarkDirty(v, sentries, f.used, cursegs, v.segs)
    {
      BuildFreeSegmap();
      InitDirtySegmap();
    }

    /** init_free_segmap, first loop.  All bits are still set, so __set_free and its testing twin agree. */
    method FreeEmptySegments()
      requires v.Valid() && |sentries| == v.segs && FreeNow() == AllUsed(v)
      modifies this`freeSegmap, this`freeSecmap, this`freeSegments, this`freeSections
      ensures FreeNow() == FreeEmpty(v, sentries, v.segs)
    {
      ghost var se := sentries;
      var start: nat := 0;
      while start < v.segs
        invariant start <= v.segs && sentries == se && FreeNow() == FreeEmpty(v, se, start)
      {
        FreeNextEmpty(start);
        start := start + 1;
      }
    }

    /** One turn of that loop. */
    method FreeNextEmpty(start: nat)
      requires v.Valid() && start < v.segs == |sentries| && FreeNow() == FreeEmpty(v, sentries, start)
      modifies this`freeSegmap, this`freeSecmap, this`freeSegments, this`freeSections
      ensures FreeNow() == FreeEmpty(v, sentries, start + 1)
    {
      FreeEmptyStep(v, sentries, start);
      FreeIf(sentries[start].valid == 0, start);
    }

    /** init_free_segmap, second loop. */
    method UseLogSegments()
      requires v.Valid() && FreeOk(v, FreeNow())
      requires |cursegs| == NR_LOGS && forall t :: 0 <= t < NR_LOGS ==> cursegs[t].segno < v.segs
      modifies this`freeSegmap, this`freeSecmap, this`freeSegments, this`freeSections
      ensures FreeNow() == UseLogs(v, old(FreeNow()), cursegs, NR_LOGS)
    {
      ghost var f := FreeNow();
      var t: nat := 0;
      while t < NR_LOGS
        invariant t <= NR_LOGS && FreeNow() == UseLogs(v, f, cursegs, t)
      {
        UseLogsStep(v, f, cursegs, t);
        SetTestAndInuse(cursegs[t].segno);
        t := t + 1;
      }
    }

    /** init_dirty_segmap. */
    method InitDirtySegmap()
      requires |sentries| == |freeSegmap| == v.segs && forall k :: 0 <= k < v.segs ==> sentries[k].typ < NR_LOGS
      requires dirtySegmap == seq(NR_DIRTY, _ => seq(v.segs, _ => false)) && nrDirty == seq(NR_DIRTY, _ => 0)
      modifies this`dirtySegmap, this`nrDirty
      ensures MarksNow() == MarkDirty(v, sentries, freeSegmap, cursegs, v.segs)
    {
      var segno: nat := 0;
      while segno < v.segs
        invariant segno <= v.segs && MarksNow() == MarkDirty(v, sentries, freeSegmap, cursegs, segno)
      {
        MarkDirtyStep(v, sentries, freeSegmap, cursegs, segno);
        InitDirtySegment(segno);
        segno := segno + 1;
      }
    }

    /** One turn of that loop: a used, partly valid segment that no log writes to. */
    method InitDirtySegment(segno: nat)
      requires Shape(MarksNow(), v.segs) && segno < v.segs == |sentries| == |freeSegmap| && sentries[segno].typ < NR_LOGS
      modifies this`dirtySegmap, this`nrDirty
      ensures MarksNow() ==
        if freeSegmap[segno] && PartlyValid(v, sentries[segno]) && !IsCur(cursegs, segno)
        then Mark(Mark(old(MarksNow()), v.segs, DIRTY, segno), v.segs, sentries[segno].typ, segno) else old(MarksNow())
    {
      var current := IsCurseg(segno);
      if freeSegmap[segno] && 0 < sentries[segno].valid < v.blocksPerSeg && !current {
        SetMark(DIRTY, segno);
        SetMark(sentries[segno].typ, segno);
      }
    }

    /** IS_CURSEG. */
    method IsCurseg(k: nat) returns (r: bool)
      ensures r <==> IsCur(cursegs, k)
    {
      r := false;
      var t := 0;
      while t < |cursegs|
        invariant 0 <= t <= |cursegs|
        invariant !r && forall i :: 0 <= i < t ==> cursegs[i].segno != k
      {
        if cursegs[t].segno == k { return true; }
        t := t + 1;
      }
    }

    /** test_and_set_bit on one of the eight dirty maps, with its counter. */
    method SetMark(kind: nat, k: nat)
      requires Shape(MarksNow(), v.segs) && kind < NR_DIRTY && k < v.segs
      modifies this`dirtySegmap, this`nrDirty
      ensures MarksNow() == Mark(old(MarksNow()), v.segs, kind, k)
    {
      if !dirtySegmap[kind][k] {
        dirtySegmap := dirtySegmap[kind := dirtySegmap[kind][k := true]];
        nrDirty := nrDirty[kind := nrDirty[kind] + 1];
      }
    }

    method ClearMark(kind: nat, k: nat)
      requires Shape(MarksNow(), v.segs) && kind < NR_DIRTY && k < v.segs
      modifies this`dirtySegmap, this`nrDirty
      ensures MarksNow() == Unmark(old(MarksNow()), v.segs, kind, k)
    {
      if dirtySegmap[kind][k] {
        dirtySegmap := dirtySegmap[kind := dirtySegmap[kind][k := false]];
        nrDirty := nrDirty[kind := nrDirty[kind] - 1];
      }
    }

    /** __remove_dirty_segment(DIRTY). */
    method RemoveDirtySegment(k: nat)
      requires Base(St()) && k < v.segs
      modifies this`dirtySegmap, this`nrDirty, this`victimSecmap
      ensures St() == RemoveDirty(old(St()), k)
    {
      assert EntryOk(sentries[k], v.blocksPerSeg);
      ClearMark(DIRTY, k);
      ClearMark(sentries[k].typ, k);
      var sec := v.SecOf(k);
      SectionInRange(v, k);
      var valid := if v.segsPerSec > 1 then secValid[sec] else sentries[k].valid;
      if valid == 0 {
        victimSecmap := victimSecmap[sec := false];
      }
    }

    /** locate_dirty_segment. */
    method LocateDirtySegment(k: nat)
      requires Base(St()) && k < v.segs
      modifies this`dirtySegmap, this`nrDirty, this`victimSecmap
      ensures St() == Locate(old(St()), k)
    {
      var current := IsCurseg(k);
      if current { return; }
      ghost var s := St();
      assert EntryOk(sentries[k], v.blocksPerSeg);
      if sentries[k].valid == 0 {
        AddPreOk(s, k);
        SetMark(PRE, k);
        RemoveDirtySegment(k);
      } else if sentries[k].valid < v.blocksPerSeg {
        SetMark(DIRTY, k);
        SetMark(sentries[k].typ, k);
      } else {
        RemoveDirtySegment(k);
      }
    }

    /** __mark_sit_entry_dirty. */
    method MarkSitEntryDirty(k: nat)
      requires k < |dirtySentries|
      modifies this`dirtySentries, this`nrDirtySentries
      ensures SitNow() == MarkSitDirty(old(SitNow()), k)
    {
      if !dirtySentries[k] {
        dirtySentries := dirtySentries[k := true];
        nrDirtySentries := nrDirtySentries + 1;
      }
    }

    /** The seg_entry fields touched by update_sit_entry, one after the other. */
    static method UpdateEntryFields(e: SegEntry, off: nat, on: bool) returns (r: SegEntry)
      requires off < |e.cur| && off < |e.ckpt|
      ensures r == UpdateEntry(e, off, on)
    {
      var del := if on then 1 else -1;
      r := e.(valid := e.valid + del);
      r := r.(cur := r.cur[off := on]);
      if !r.ckpt[off] {
        r := r.(ckptValid := r.ckptValid + del);
      }
    }

    /** update_sit_entry; the guards of its BUG_ONs are the precondition. */
    method UpdateSitEntry(b: Block, on: bool)
      requires v.Valid() && SitOk(v, SitNow()) && InMain(v, b) && sentries[b.seg].cur[b.off] != on
      modifies this`sentries, this`dirtySentries, this`nrDirtySentries, this`written, this`secValid
      ensures SitNow() == UpdateSit(v, old(SitNow()), b, on)
      ensures SitOk(v, SitNow())
    {
      ghost var t := SitNow();
      UpdateSitOk(v, t, b, on);
      var del := if on then 1 else -1;
      var e := UpdateEntryFields(sentries[b.seg], b.off, on);
      sentries := sentries[b.seg := e];
      MarkSitEntryDirty(b.seg);
      written := written + del;
      if v.segsPerSec > 1 {
        AddSectionValid(b.seg, del);
      }
      assert SitNow() == UpdateSit(v, t, b, on);
    }

    /** get_sec_entry(segno)->valid_blocks += del. */
    method AddSectionValid(k: nat, del: int)
      requires v.Valid() && k < v.segs && |secValid| == v.Secs()
      modifies this`secValid
      ensures secValid == Bump(old(secValid), v.SecOf(k), del)
    {
      SectionInRange(v, k);
      var sec := v.SecOf(k);
      secValid := secValid[sec := secValid[sec] + del];
    }

    /** __set_test_and_inuse. */
    method SetTestAndInuse(k: nat)
      requires v.Valid() && FreeOk(v, FreeNow()) && k < v.segs
      modifies this`freeSegmap, this`freeSecmap, this`freeSegments, this`freeSections
      ensures FreeNow() == SetInuse(v, old(FreeNow()), k)
    {
      SectionInRange(v, k);
      var sec := v.SecOf(k);
      if !freeSegmap[k] {
        freeSegmap := freeSegmap[k := true];
        freeSegments := freeSegments - 1;
        if !freeSecmap[sec] {
          freeSections := freeSections - 1;
        }
        freeSecmap := freeSecmap[sec := true];
      }
    }

    /** __set_test_and_free. */
    method SetTestAndFree(k: nat)
      requires v.Valid() && FreeOk(v, FreeNow()) && k < v.segs
      modifies this`freeSegmap, this`freeSecmap, this`freeSegments, this`freeSections
      ensures FreeNow() == SetFree(v, old(FreeNow()), k)
    {
      SectionInRange(v, k);
      var sec := v.SecOf(k);
      if freeSegmap[k] {
        freeSegmap := freeSegmap[k := false];
        freeSegments := freeSegments + 1;
        var next := NextOne(freeSegmap, sec * v.segsPerSec);
        if next >= sec * v.segsPerSec + v.segsPerSec {
          if freeSecmap[sec] {
            freeSections := freeSections + 1;
          }
          freeSecmap := freeSecmap[sec := false];
        }
      }
    }

    // ----- gc.c: victim selection in SSR mode -----

    /** sec_usage_check. */
    method SecUsageCheck(sec: nat) returns (r: bool)
      requires 0 < v.segsPerSec
      ensures r <==> SecInUse(v, cursegs, curVictimSec, sec)
    {
      if curVictimSec == sec { return true; }
      r := false;
      var t := 0;
      while t < |cursegs|
        invariant 0 <= t <= |cursegs|
        invariant !r && forall i :: 0 <= i < t ==> v.SecOf(cursegs[i].segno) != sec
      {
        if v.SecOf(cursegs[t].segno) == sec { return true; }
        t := t + 1;
      }
    }

    ghost predicate VictimTables(d: nat)
      reads this`dirtySegmap, this`nrDirty, this`sentries, this`victimSecmap
    {
      && v.Valid() && d < |dirtySegmap| == |nrDirty| && |dirtySegmap[d]| == |sentries| == v.segs
      && |victimSecmap| == v.Secs()
      && forall k :: 0 <= k < v.segs ==> sentries[k].ckptValid <= v.blocksPerSeg
    }

    /** The cost of k, or the maximum when k is no candidate. */
    method VictimCost(d: nat, k: nat) returns (ok: bool, cost: int)
      requires VictimTables(d) && k < v.segs && dirtySegmap[d][k]
      ensures ok && cost < v.blocksPerSeg <==> Eligible(St(), curVictimSec, d, k)
      ensures ok <==> (
        && curVictimSec != v.SecOf(k) && (forall t :: 0 <= t < |cursegs| ==> v.SecOf(cursegs[t].segno) != v.SecOf(k))
        && !(v.SecOf(k) < |victimSecmap| && victimSecmap[v.SecOf(k)]))
      ensures cost == sentries[k].ckptValid <= v.blocksPerSeg
    {
      cost := sentries[k].ckptValid;
      SectionInRange(v, k);
      var sec := v.SecOf(k);
      var busy := SecUsageCheck(sec);
      ok := !busy && !victimSecmap[sec];
    }

    /**
     * get_victim_by_default(SSR, BG_GC) on dirty list d: it finds a victim exactly when one is eligible, wherever
     * the scan starts and however short the search limit is; the victim is the first of the cheapest visited,
     * so the cheapest of all when the limit does not cut the list short; the next scan goes on behind a cut.
     */
    method GetVictim(d: nat) returns (found: bool, k: nat)
      requires VictimTables(d)
      modifies this`lastVictim
      ensures St() == old(St())
      ensures found ==> Eligible(St(), curVictimSec, d, k)
      ensures found <==> HasEligible(St(), curVictimSec, d)
      ensures found ==> FirstCheapest(St(), Visited(St(), curVictimSec, d, old(lastVictim), Limit(nrDirty[d], maxVictimSearch)), k)
      ensures lastVictim == NextStart(St(), curVictimSec, d, old(lastVictim), Limit(nrDirty[d], maxVictimSearch))
      ensures lastVictim != 0 && 0 <= nrDirty[d] && 0 <= maxVictimSearch ==>
        |Visited(St(), curVictimSec, d, old(lastVictim), Limit(nrDirty[d], maxVictimSearch))| ==
          1 + if nrDirty[d] < maxVictimSearch then nrDirty[d] else maxVictimSearch
      ensures found && nrDirty[d] == Ones(dirtySegmap[d]) <= maxVictimSearch ==>
        forall j: nat :: Eligible(St(), curVictimSec, d, j) ==> sentries[k].ckptValid <= sentries[j].ckptValid
    {
      ghost var s, start := St(), lastVictim;
      found, k := ScanList(d);
      if lastVictim != 0 && 0 <= nrDirty[d] && 0 <= maxVictimSearch {
        CutVisits(s, curVictimSec, d, start, nrDirty[d], maxVictimSearch);
      }
      if found && nrDirty[d] == Ones(dirtySegmap[d]) <= maxVictimSearch {
        CheapestOfAll(s, curVictimSec, d, start, maxVictimSearch, k);
      }
    }

    /** The loop of get_victim_by_default. */
    method ScanList(d: nat) returns (found: bool, k: nat)
      requires VictimTables(d)
      modifies this`lastVictim
      ensures St() == old(St()) && lastVictim == NextStart(St(), curVictimSec, d, old(lastVictim), Limit(nrDirty[d], maxVictimSearch))
      ensures found ==> Eligible(St(), curVictimSec, d, k)
      ensures found <==> HasEligible(St(), curVictimSec, d)
      ensures found ==> FirstCheapest(St(), Visited(St(), curVictimSec, d, old(lastVictim), Limit(nrDirty[d], maxVictimSearch)), k)
    {
      ghost var s, start, limit := St(), lastVictim, Limit(nrDirty[d], maxVictimSearch);
      ghost var visited: seq<nat> := [];
      var maxSearch := if nrDirty[d] > maxVictimSearch then maxVictimSearch else nrDirty[d];
      var offset: nat := lastVictim;
      var minCost, nsearched, stop := v.blocksPerSeg, 0, false;
      found, k := false, 0;
      while !stop
        invariant if stop then ScanDone(s, d, start, limit, visited, found, k) && lastVictim == NextStart(s, curVictimSec, d, start, limit)
          else ScanOk(s, curVictimSec, d, start, limit, visited, offset, lastVictim != 0, found, k, minCost) && nsearched == |visited|
        decreases !stop, if lastVictim == 0 then 0 else 1, v.segs - offset
      {
        var seg := NextOne(dirtySegmap[d], offset);
        if seg >= v.segs {
          ScanRunsOut(s, curVictimSec, d, Order(s, curVictimSec, d, start), visited, offset, lastVictim != 0);
          if lastVictim != 0 {
            lastVictim := 0;
            offset := 0;
            continue;
          }
          ScanEnds(s, curVictimSec, d, start, limit, visited, offset, false, false);
          break;
        }
        found, k, minCost, nsearched, stop, visited := ScanSegment(d, seg, found, k, minCost, nsearched, maxSearch, start, limit, visited, offset);
        offset := seg + 1;
        if stop { lastVictim := seg; }
      }
    }

    ghost predicate ScanDone(s: State, d: nat, start: nat, limit: nat, visited: seq<nat>, found: bool, k: nat)
      reads this`curVictimSec
    {
      && visited == Visited(s, curVictimSec, d, start, limit)
      && (found ==> FirstCheapest(s, visited, k) && Eligible(s, curVictimSec, d, k))
      && (found <==> HasEligible(s, curVictimSec, d))
    }

    /** One marked segment: passed over, or visited, which stops the scan at the limit. */
    method ScanSegment(d: nat, seg: nat, found0: bool, k0: nat, minCost0: int, nsearched0: nat, maxSearch: int,
                       ghost start: nat, ghost limit: nat, ghost visited0: seq<nat>, ghost offset: nat)
      returns (found: bool, k: nat, minCost: int, nsearched: nat, stop: bool, ghost visited: seq<nat>)
      requires VictimTables(d) && offset <= seg < v.segs && dirtySegmap[d][seg] && NoneBetween(St(), d, offset, seg)
      requires limit == (if maxSearch < 0 then 1 else maxSearch + 1) && nsearched0 == |visited0|
      requires ScanOk(St(), curVictimSec, d, start, limit, visited0, offset, lastVictim != 0, found0, k0, minCost0)
      ensures !stop ==>
        nsearched == |visited| && ScanOk(St(), curVictimSec, d, start, limit, visited, seg + 1, lastVictim != 0, found, k, minCost)
      ensures stop ==> ScanDone(St(), d, start, limit, visited, found, k) && NextStart(St(), curVictimSec, d, start, limit) == seg
    {
      found, k, minCost, nsearched, stop, visited := found0, k0, minCost0, nsearched0, false, visited0;
      ghost var s := St();
      ScanNext(s, curVictimSec, d, Order(s, curVictimSec, d, start), visited, offset, lastVictim != 0, seg);
      var ok, cost := VictimCost(d, seg);
      if !ok { return; }
      if cost < v.blocksPerSeg {
        BestStep(s, visited, found, k, minCost, seg);
        visited := visited + [seg];
      }
      if minCost > cost {
        found, k, minCost := true, seg, cost;
      } else if cost == v.blocksPerSeg {
        return;
      }
      if nsearched >= maxSearch {
        ScanEnds(s, curVictimSec, d, start, limit, visited, seg + 1, lastVictim != 0, true);
        stop := true;
      } else {
        nsearched := nsearched + 1;
      }
    }

    // ----- segment.c: moving a log to another segment -----

    /** __set_sit_entry_type with `modified` set. */
    method SetSitEntryType(k: nat, typ: nat)
      requires k < |sentries| == |dirtySentries|
      modifies this`sentries, this`dirtySentries, this`nrDirtySentries
      ensures SitNow() == SetType(old(SitNow()), k, typ)
    {
      sentries := sentries[k := sentries[k].(typ := typ)];
      MarkSitEntryDirty(k);
    }

    /** __next_free_blkoff: the first position at or after `start` that neither map has set, found word by word. */
    method NextFreeBlkoff(k: nat, start: nat) returns (pos: nat)
      requires k < |sentries| && |sentries[k].cur| == |sentries[k].ckpt| && |sentries[k].cur| % 8 == 0
      ensures pos == NextZero(Union(sentries[k].ckpt, sentries[k].cur), start)
    {
      var ckptMap, curMap := Packed(sentries[k].ckpt), Packed(sentries[k].cur);
      var targetMap: seq<bv64> := [];
      for i := 0 to |curMap|
        invariant targetMap == OrWords(ckptMap, curMap)[..i]
      {
        targetMap := targetMap + [ckptMap[i] | curMap[i]];
      }
      assert targetMap == OrWords(ckptMap, curMap);
      SearchOfUnion(sentries[k].ckpt, sentries[k].cur, start);
      pos := FindRevNextZeroBit(targetMap, |sentries[k].cur|, start);
    }

    /** The call of get_new_segment in new_curseg. */
    method PickSegment(t: nat, newSec: bool, noHeap: bool) returns (k: nat)
      requires PolicyTables() && t < NR_LOGS && CanOpen(St(), t, newSec)
      ensures k < v.segs && !freeSegmap[k] && OpenPick(St(), t, newSec, noHeap, k)
    {
      var left := !(t == WARM_DATA || t == COLD_DATA || noHeap);
      var zones := seq(|cursegs|, i requires 0 <= i < |cursegs| reads this => cursegs[i].zone);
      k := GetNewSegment(v, FreeMap(freeSegmap, freeSecmap, freeSegments, freeSections), cursegs[t].segno, newSec, left, zones);
      assert zones == ZonesOf(cursegs);
    }

    /** reset_curseg on the segment chosen, then alloc_type = LFS: the tail of new_curseg. */
    method ResetCurseg(t: nat, k: nat)
      requires PolicyTables() && t < NR_LOGS && k < v.segs
      modifies this`sentries, this`dirtySentries, this`nrDirtySentries, this`cursegs
      modifies this`freeSegmap, this`freeSecmap, this`freeSegments, this`freeSections
      ensures St() == old(St()).(free := SetInuse(v, old(FreeNow()), k), sit := SetType(old(SitNow()), k, t),
                                 logs := old(cursegs)[t := Log(k, 0, false, v.ZoneOf(k))])
    {
      SetTestAndInuse(k);
      SetSitEntryType(k, t);
      cursegs := cursegs[t := Log(k, 0, false, v.ZoneOf(k))];
    }

    /** new_curseg: a free segment, chosen by get_new_segment. */
    method NewCurseg(t: nat, newSec: bool, noHeap: bool) returns (k: nat)
      requires Base(St()) && t < NR_LOGS && CanOpen(St(), t, newSec)
      modifies this`sentries, this`dirtySentries, this`nrDirtySentries, this`cursegs
      modifies this`freeSegmap, this`freeSecmap, this`freeSegments, this`freeSections
      ensures k < v.segs && !old(freeSegmap)[k] && OpenPick(old(St()), t, newSec, noHeap, k)
      ensures St() == OpenLog(old(St()), t, k)
    {
      TablesOk();
      k := PickSegment(t, newSec, noHeap);
      ResetCurseg(t, k);
    }

    /** The victim leaves the dirty lists. */
    method StripVictim(k: nat)
      requires Base(St()) && k < v.segs
      modifies this`freeSegmap, this`freeSecmap, this`freeSegments, this`freeSections
      modifies this`dirtySegmap, this`nrDirty, this`victimSecmap
      ensures Base(old(St()).(free := SetInuse(v, old(FreeNow()), k)))
      ensures St() == StripMarks(old(St()).(free := SetInuse(v, old(FreeNow()), k)), k)
    {
      SetInuseOk(v, FreeNow(), k);
      SetTestAndInuse(k);
      RemovePreOk(St(), k);
      ClearMark(PRE, k);
      RemoveDirtySegment(k);
    }

    /** change_curseg: the victim leaves the dirty lists and is refilled hole by hole. */
    method ChangeCurseg(t: nat, k: nat)
      requires Base(St()) && t < NR_LOGS && k < v.segs
      modifies this`sentries, this`dirtySentries, this`nrDirtySentries, this`cursegs
      modifies this`freeSegmap, this`freeSecmap, this`freeSegments, this`freeSections
      modifies this`dirtySegmap, this`nrDirty, this`victimSecmap
      ensures St() == ReuseLog(old(St()), t, k)
    {
      ghost var s := St();
      StripVictim(k);
      ReuseAfterStrip(s, t, k, St());
      assert EntryOk(s.sit.se[k], v.blocksPerSeg);
      SetSitEntryType(k, t);
      var pos := NextFreeBlkoff(k, 0);
      cursegs := cursegs[t := Log(k, pos, true, v.ZoneOf(k))];
    }

    /** What the choice of a segment relies on. */
    ghost predicate PolicyTables()
      reads this
    {
      && v.Valid() && |cursegs| == NR_LOGS && (forall t :: 0 <= t < NR_LOGS ==> cursegs[t].segno < v.segs)
      && FreeOk(v, FreeNow()) && |dirtySegmap| == |nrDirty| == NR_DIRTY && |sentries| == |dirtySentries| == v.segs
      && forall d: nat :: d < NR_LOGS ==> VictimTables(d)
    }

    lemma TablesOk()
      requires Base(St())
      ensures PolicyTables()
    {
      forall k | 0 <= k < v.segs ensures sentries[k].ckptValid <= v.blocksPerSeg {
        assert EntryOk(SitNow().se[k], v.blocksPerSeg);
      }
      forall t | 0 <= t < NR_LOGS ensures cursegs[t].segno < v.segs {
        assert LogOk(v, sentries, cursegs[t], t);
      }
    }

    /**
     * get_ssr_segment: node logs and relaxed data logs look in their own list only, data logs short of
     * sections in all lists down to the hottest.  It finds a victim exactly when one of them has one, and takes
     * the best of the first that has.
     */
    method GetSsrSegment(t: nat, lowOnSections: bool) returns (found: bool, k: nat, ghost d: nat)
      requires PolicyTables() && t < NR_LOGS
      modifies this`lastVictim
      ensures St() == old(St())
      ensures found <==> VictimExists(St(), curVictimSec, t, lowOnSections)
      ensures found ==> d < NR_LOGS && SsrSource(t, d) && Eligible(St(), curVictimSec, d, k)
      ensures found ==> SsrPickFrom(St(), curVictimSec, maxVictimSearch, old(lastVictim), t, lowOnSections, d, k)
    {
      ghost var s := St();
      d := t;
      if t >= HOT_NODE || !lowOnSections {
        found, k := GetVictim(t);
        return;
      }
      var typ: int := t;
      found, k := false, 0;
      while typ >= HOT_DATA
        invariant -1 <= typ <= t && !found && St() == s && PolicyTables()
        invariant forall e: nat :: typ < e <= t ==> !HasEligible(s, curVictimSec, e)
        invariant lastVictim == if typ == t then old(lastVictim) else 0
        decreases typ
      {
        d := typ;
        found, k := GetVictim(typ);
        if found { return; }
        NothingVisited(s, curVictimSec, typ, if typ == t then old(lastVictim) else 0, Limit(nrDirty[typ], maxVictimSearch));
        typ := typ - 1;
      }
    }

    /** need_SSR. */
    method NeedSsr() returns (r: bool)
      requires 0 < v.segsPerSec && PRE < |nrDirty|
      ensures r <==> WantsSsr(St(), overprovisionSecs)
    {
      r := nrDirty[PRE] / v.segsPerSec + freeSections < overprovisionSecs;
    }

    method IsNextSegmentFree(t: nat) returns (r: bool)
      requires PolicyTables() && t < NR_LOGS
      ensures r <==> FreeToTheRight(v, freeSegmap, cursegs[t].segno, cursegs[t].segno + 1)
    {
      var seg := cursegs[t].segno + 1;
      if seg < v.segs && seg % v.segsPerSec == 0 { SectionEnd(v, cursegs[t].segno, seg); }
      if seg < v.segs && seg % v.segsPerSec != 0 {
        NextInSection(v, cursegs[t].segno);
        r := !freeSegmap[seg];
      } else {
        r := false;
      }
    }

    /** The tests of allocate_segment_by_default before SSR is asked for a victim. */
    method AsksForVictim(t: nat, force: bool) returns (r: bool)
      requires PolicyTables() && t < NR_LOGS
      ensures r <==> !force && t != WARM_NODE && !PrefersNext(St(), t) && WantsSsr(St(), overprovisionSecs)
      ensures r <==> (
        && !force && t != WARM_NODE && nrDirty[PRE] / v.segsPerSec + freeSections < overprovisionSecs
        && (cursegs[t].ssr || !FreeToTheRight(v, freeSegmap, cursegs[t].segno, cursegs[t].segno + 1)))
    {
      if force || t == WARM_NODE { return false; }
      var next := IsNextSegmentFree(t);
      if !cursegs[t].ssr && next { return false; }
      r := NeedSsr();
    }

    method ChooseVictim(t: nat, force: bool, lowOnSections: bool) returns (found: bool, k: nat, ghost d: nat)
      requires PolicyTables() && t < NR_LOGS
      modifies this`lastVictim
      ensures St() == old(St())
      ensures found <==> TakesVictim(St(), curVictimSec, overprovisionSecs, t, force, lowOnSections)
      ensures found ==> d < NR_LOGS && SsrSource(t, d) && Eligible(St(), curVictimSec, d, k)
      ensures found ==> SsrPick(St(), curVictimSec, maxVictimSearch, old(lastVictim), t, lowOnSections, k)
    {
      found, k, d := false, 0, 0;
      var asks := AsksForVictim(t, force);
      if asks {
        found, k, d := GetSsrSegment(t, lowOnSections);
      }
    }

    /**
     * allocate_segment_by_default on a full log.  It goes on exactly when SSR is asked for and has a victim,
     * or a section is free, or the section of the log has room to the right; the choice is then legal, and the
     * one the policy makes; a victim is never taken by the warm node log.
     */
    method AllocateSegment(t: nat, force: bool, lowOnSections: bool, noHeap: bool) returns (ghost c: Choice)
      requires Base(St()) && t < NR_LOGS && cursegs[t].blkoff >= v.blocksPerSeg
      requires CanMoveOn(St(), curVictimSec, overprovisionSecs, t, force, lowOnSections)
      modifies this`sentries, this`dirtySentries, this`nrDirtySentries, this`cursegs
      modifies this`freeSegmap, this`freeSecmap, this`freeSegments, this`freeSections
      modifies this`dirtySegmap, this`nrDirty, this`victimSecmap, this`lastVictim
      ensures c != Keep && Legal(old(St()), t, c)
      ensures ByPolicy(old(St()), curVictimSec, overprovisionSecs, maxVictimSearch, old(lastVictim), t, force, lowOnSections, noHeap, c)
      ensures c.Reuse? <==> old(TakesVictim(St(), curVictimSec, overprovisionSecs, t, force, lowOnSections))
      ensures St() == Switch(old(St()), t, c)
    {
      TablesOk();
      ghost var s, start := St(), lastVictim;
      var found, k;
      ghost var d;
      found, k, d := ChooseVictim(t, force, lowOnSections);
      if found {
        PolicyReuses(s, curVictimSec, overprovisionSecs, maxVictimSearch, start, t, force, lowOnSections, noHeap, k);
        MoveToVictim(t, k, d);
        c := Reuse(k);
      } else {
        k := NewCurseg(t, force, noHeap);
        PolicyOpens(s, curVictimSec, overprovisionSecs, maxVictimSearch, start, t, force, lowOnSections, noHeap, k);
        c := Open(k);
      }
    }

    /** The log moves to the victim found. */
    method MoveToVictim(t: nat, k: nat, ghost d: nat)
      requires Base(St()) && t < NR_LOGS && cursegs[t].blkoff >= v.blocksPerSeg && t != WARM_NODE
      requires d < NR_LOGS && SsrSource(t, d) && Eligible(St(), curVictimSec, d, k)
      modifies this`sentries, this`dirtySentries, this`nrDirtySentries, this`cursegs
      modifies this`freeSegmap, this`freeSecmap, this`freeSegments, this`freeSections
      modifies this`dirtySegmap, this`nrDirty, this`victimSecmap
      ensures Legal(old(St()), t, Reuse(k)) && k < v.segs && St() == Switch(old(St()), t, Reuse(k))
    {
      EligibleIsLegal(St(), curVictimSec, t, d, k);
      ChangeCurseg(t, k);
    }

    // ----- whole operations -----

    /** __refresh_next_blkoff. */
    method RefreshNextBlkoff(t: nat)
      requires Base(St()) && t < NR_LOGS
      modifies this`cursegs
      ensures cursegs == old(cursegs)[t := old(cursegs)[t].(blkoff := NextOff(old(St()), t))]
    {
      var log := cursegs[t];
      assert LogOk(v, sentries, log, t) && EntryOk(SitNow().se[log.segno], v.blocksPerSeg);
      if log.ssr {
        var pos := NextFreeBlkoff(log.segno, log.blkoff + 1);
        cursegs := cursegs[t := log.(blkoff := pos)];
      } else {
        cursegs := cursegs[t := log.(blkoff := log.blkoff + 1)];
      }
    }

    /** refresh_next_blkoff, and update_sit_entry on the new block. */
    method TakeNext(t: nat)
      requires Base(St()) && t < NR_LOGS && cursegs[t].blkoff < v.blocksPerSeg
      modifies this`cursegs, this`sentries, this`dirtySentries, this`nrDirtySentries, this`written, this`secValid
      ensures St() == TakeBlock(old(St()), t)
    {
      ghost var s := St();
      NextBlockIsHole(s, t);
      var b := Block(cursegs[t].segno, cursegs[t].blkoff);
      RefreshNextBlkoff(t);
      UpdateSitEntry(b, true);
    }

    /** refresh_next_blkoff and refresh_sit_entry: the state the allocation policy sees. */
    method Refresh(t: nat, prev: OldBlock)
      requires Inv(St()) && t < NR_LOGS && OldOk(St(), prev)
      modifies this`cursegs, this`sentries, this`dirtySentries, this`nrDirtySentries, this`written, this`secValid
      ensures St() == Mid(old(St()), t, prev)
    {
      ghost var s := St();
      TakeNext(t);
      if prev.OldBlock? {
        TakeKeepsOld(s, t, prev.b);
        DropValid(prev.b);
      }
    }

    /** update_sit_entry on the block being replaced. */
    method DropValid(b: Block)
      requires Base(St()) && IsValidBlock(St(), b)
      modifies this`sentries, this`dirtySentries, this`nrDirtySentries, this`written, this`secValid
      ensures St() == DropBlock(old(St()), b)
    {
      UpdateSitEntry(b, false);
    }

    /** allocate_data_block's tail: the log moves on if it is full, then two segments are located. */
    method MoveOn(t: nat, prev: OldBlock, force: bool, lowOnSections: bool, noHeap: bool)
      returns (ghost c: Choice)
      requires t < NR_LOGS && InvBut(St(), Lag(prev))
      requires cursegs[t].blkoff < v.blocksPerSeg
        || CanMoveOn(St(), curVictimSec, overprovisionSecs, t, force, lowOnSections)
      modifies this`sentries, this`dirtySentries, this`nrDirtySentries, this`cursegs
      modifies this`freeSegmap, this`freeSecmap, this`freeSegments, this`freeSections
      modifies this`dirtySegmap, this`nrDirty, this`victimSecmap, this`lastVictim
      ensures Legal(old(St()), t, c)
      ensures ByPolicy(old(St()), curVictimSec, overprovisionSecs, maxVictimSearch, old(lastVictim), t, force, lowOnSections, noHeap, c)
      ensures St() == Moved(old(St()), Lag(prev), t, c)
    {
      c := Keep;
      if cursegs[t].blkoff >= v.blocksPerSeg {
        c := AllocateSegment(t, force, lowOnSections, noHeap);
      }
    }

    /** locate_dirty_segment twice: the segment the log left, and the segment of the old block. */
    method LocateBoth(left: nat, prev: OldBlock)
      requires InvBut(St(), Lag(prev) + {left}) && left < v.segs && (prev.OldBlock? ==> prev.b.seg < v.segs)
      modifies this`dirtySegmap, this`nrDirty, this`victimSecmap
      ensures St() == BothLocated(old(St()), left, prev)
    {
      ghost var s := St();
      LocateDirtySegment(left);
      assert St() == Located(s, Lag(prev) + {left}, left);
      if prev.OldBlock? {
        LocateDirtySegment(prev.b.seg);
      }
    }

    /** allocate_data_block on the tables in memory. */
    method TakeAndMove(t: nat, prev: OldBlock, lowOnSections: bool, noHeap: bool) returns (b: Block, ghost c: Choice)
      requires Inv(St()) && t < NR_LOGS && OldOk(St(), prev)
      requires NextOff(St(), t) < v.blocksPerSeg
        || CanMoveOn(Mid(St(), t, prev), curVictimSec, overprovisionSecs, t, false, lowOnSections)
      modifies this
      ensures b == NextBlock(old(St()), t) && Hole(old(sentries)[b.seg], b.off)
      ensures Legal(Mid(old(St()), t, prev), t, c) && St() == Allocate(old(St()), t, prev, c)
      ensures ByPolicy(Mid(old(St()), t, prev), old(curVictimSec), overprovisionSecs, maxVictimSearch, old(lastVictim),
                       t, false, lowOnSections, noHeap, c)
    {
      NextBlockIsHole(St(), t);
      b := Block(cursegs[t].segno, cursegs[t].blkoff);
      var left := cursegs[t].segno;
      ghost var s := St();
      Refresh(t, prev);
      MidOk(s, t, prev);
      c := MoveAndLocate(t, left, prev, lowOnSections, noHeap);
    }

    /** What allocate_data_block does after refresh_sit_entry. */
    method MoveAndLocate(t: nat, left: nat, prev: OldBlock, lowOnSections: bool, noHeap: bool) returns (ghost c: Choice)
      requires t < NR_LOGS && InvBut(St(), Lag(prev)) && left == cursegs[t].segno && (prev.OldBlock? ==> prev.b.seg < v.segs)
      requires cursegs[t].blkoff < v.blocksPerSeg
        || CanMoveOn(St(), curVictimSec, overprovisionSecs, t, false, lowOnSections)
      modifies this
      ensures Legal(old(St()), t, c)
      ensures ByPolicy(old(St()), old(curVictimSec), overprovisionSecs, maxVictimSearch, old(lastVictim), t, false, lowOnSections, noHeap, c)
      ensures St() == BothLocated(Moved(old(St()), Lag(prev), t, c), left, prev)
    {
      c := MoveOn(t, prev, false, lowOnSections, noHeap);
      LocateBoth(left, prev);
    }

    /**
     * allocate_data_block.  `prev` is the block being replaced, if any.  The block returned is the
     * one the log announced, and it is a hole: neither valid now nor needed by the last checkpoint.
     * When the log is at its end, the state the policy sees must offer it a victim, a free section or room
     * in its section, as the BUG of get_new_segment demands.
     */
    method AllocateDataBlock(t: nat, prev: OldBlock, lowOnSections: bool, noHeap: bool)
      returns (b: Block, next: Block, ghost c: Choice)
      requires Inv(St()) && t < NR_LOGS && OldOk(St(), prev)
      requires NextOff(St(), t) < v.blocksPerSeg
        || CanMoveOn(Mid(St(), t, prev), curVictimSec, overprovisionSecs, t, false, lowOnSections)
      modifies this
      ensures b == NextBlock(old(St()), t) && Hole(old(sentries)[b.seg], b.off)
      ensures Legal(Mid(old(St()), t, prev), t, c) && St() == Allocate(old(St()), t, prev, c)
      ensures ByPolicy(Mid(old(St()), t, prev), old(curVictimSec), overprovisionSecs, maxVictimSearch, old(lastVictim),
                       t, false, lowOnSections, noHeap, c)
      ensures Inv(St()) && next == NextBlock(St(), t)
      ensures old(BackedNow()) ==> BackedNow()
    {
      ghost var s := St();
      b, c := TakeAndMove(t, prev, lowOnSections, noHeap);
      AllocateKeeps(s, t, prev, c);
      AllocateDirties(s, t, prev, c, St());
      StillBacked(s.sit);
      next := Block(cursegs[t].segno, cursegs[t].blkoff);
    }

    /** invalidate_blocks; NULL_ADDR is a BUG in the code, NEW_ADDR owns no block. */
    method InvalidateBlocks(addr: int)
      requires Inv(St()) && addr != NULL_ADDR
      requires addr != NEW_ADDR ==>
        v.base <= addr < v.base + v.segs * v.blocksPerSeg && IsValidBlock(St(), BlockOf(v, addr))
      modifies this
      ensures addr == NEW_ADDR ==> St() == old(St())
      ensures addr != NEW_ADDR ==> St() == Invalidate(old(St()), BlockOf(v, addr))
      ensures Inv(St()) && (old(BackedNow()) ==> BackedNow())
    {
      if addr == NEW_ADDR { return; }
      ghost var s := St();
      var b := BlockOf(v, addr);
      DropKeeps(s, b);
      DropValid(b);
      LocateDirtySegment(b.seg);
      InvalidateDirties(s, b, St());
      StillBacked(s.sit);
    }

    /** What an operation changes it marks dirty, so the SIT area still backs the rest. */
    lemma StillBacked(t: Sit)
      requires OnlyDirtied(t, SitNow())
      ensures area.Valid() && Backed(area.l, t, area.S()) ==> BackedNow()
    {
      if area.Valid() && Backed(area.l, t, area.S()) { DirtiedBacked(area.l, t, SitNow(), area.S()); }
    }

    // ----- checkpoint -----

    /** flush_sits_in_journal: a full journal is emptied, its segments marked dirty. */
    method FlushSitsInJournal() returns (flushed: bool)
      requires v.Valid() && SitOk(v, SitNow()) && BackedNow()
      modifies this`dirtySentries, this`nrDirtySentries, area`journal
      ensures flushed <==> |old(area.journal)| >= area.l.journalMax
      ensures flushed ==> area.journal == []
      ensures BackedNow() && MarkedMore(old(SitNow()))
    {
      if |area.journal| < area.l.journalMax { return false; }
      ghost var t := SitNow();
      DirtyJournalled(area.journal);
      StillBacked(t);
      EmptiedBacked(area.l, SitNow(), area.S());
      area.journal := [];
      flushed := true;
    }

    /** Its loop, from the last entry to the first. */
    method DirtyJournalled(entries: seq<JournalEntry<RawSit>>)
      requires v.Valid() && SitOk(v, SitNow()) && forall j :: 0 <= j < |entries| ==> entries[j].key < v.segs
      modifies this`dirtySentries, this`nrDirtySentries
      ensures MarkedMore(old(SitNow())) && forall j :: 0 <= j < |entries| ==> dirtySentries[entries[j].key]
    {
      ghost var t := SitNow();
      var i := |entries|;
      while i > 0
        invariant 0 <= i <= |entries| && MarkedMore(t)
        invariant forall j :: i <= j < |entries| ==> dirtySentries[entries[j].key]
      {
        i := i - 1;
        MarkForFlush(entries[i].key, t);
      }
    }

    /** Clean entries of t have been marked dirty, which changes nothing for the flush. */
    ghost predicate MarkedMore(t: Sit)
      reads this`sentries, this`dirtySentries, this`nrDirtySentries, this`written, this`secValid
    {
      && v.Valid() && SitOk(v, SitNow()) && |t.dirty| == |t.se|
      && Flush(SitNow()) == Flush(t) && OnlyDirtied(t, SitNow())
    }

    method MarkForFlush(k: nat, ghost t: Sit)
      requires MarkedMore(t) && k < v.segs
      modifies this`dirtySentries, this`nrDirtySentries
      ensures MarkedMore(t) && dirtySentries == old(dirtySentries)[k := true]
    {
      MarkKeepsFlush(v, SitNow(), k);
      MarkSitEntryDirty(k);
    }

    /** A flush under way: what is clean is backed, and the copies of the last checkpoint are intact. */
    ghost predicate Flushing(flushed: bool, cur: int, cp: seq<bool>, before: map<int, seq<RawSit>>)
      reads this, area
    {
      && IsSit(area.l) && StoreOk(area.l, area.S()) && Backed(area.l, SitNow(), area.S())
      && Shadowed(area.l, area.S(), area.dirtyPages, cp, before)
      && area.Held(cp, cur) && (flushed ==> area.journal == [])
    }

    /** One entry: stored, then clean. */
    method FlushSit(segno: nat, flushed: bool, cur: int, ghost cp: seq<bool>, ghost before: map<int, seq<RawSit>>)
      returns (cur': int)
      requires Flushing(flushed, cur, cp, before) && segno < |sentries| && cur <= area.l.BlockOf(segno)
      modifies this`sentries, this`dirtySentries, this`nrDirtySentries, area
      ensures Flushing(flushed, cur', cp, before) && cur' <= area.l.BlockOf(segno)
      ensures sentries == old(sentries)[segno := FlushEntry(old(sentries)[segno])]
      ensures dirtySentries == old(dirtySentries)[segno := false] && nrDirtySentries == old(nrDirtySentries) - 1
    {
      ghost var t, disk := SitNow(), area.S();
      cur' := area.StoreRaw(segno, Raw(sentries[segno]), flushed, cur, cp, before);
      sentries := sentries[segno := FlushEntry(sentries[segno])];
      dirtySentries := dirtySentries[segno := false];
      nrDirtySentries := nrDirtySentries - 1;
      WrittenBacked(area.l, t, disk, area.S(), segno, SitNow());
    }

    /** The loop of flush_sit_entries: every dirty entry is stored, lowest segment first. */
    method FlushDirtySits(flushed: bool, ghost cp: seq<bool>, ghost before: map<int, seq<RawSit>>)
      requires Flushing(flushed, -1, cp, before)
      modifies this`sentries, this`dirtySentries, this`nrDirtySentries, area
      ensures SitNow() == Flush(old(SitNow()))
      ensures exists cur :: Flushing(flushed, cur, cp, before)
    {
      ghost var t := SitNow();
      var cur := -1;
      var segno: nat := NextOne(dirtySentries, 0);
      while segno < |dirtySentries|
        invariant FlushedBelow(t, sentries, dirtySentries, segno) && (segno < |t.se| ==> dirtySentries[segno])
        invariant nrDirtySentries == t.nrDirty - Ones(t.dirty) + Ones(dirtySentries)
        invariant written == t.written && secValid == t.secValid
        invariant Flushing(flushed, cur, cp, before) && cur <= area.l.BlockOf(segno)
      {
        FlushStep(t, sentries, dirtySentries, segno);
        cur := FlushSit(segno, flushed, cur, cp, before);
        BlockMono(area.l, segno, NextOne(dirtySentries, segno + 1));
        segno := NextOne(dirtySentries, segno + 1);
      }
      AllFlushed(t, sentries, dirtySentries);
    }

    /**
     * flush_sit_entries: every dirty entry becomes the checkpointed one.  Afterwards the journal over the SIT
     * blocks says of every segment what memory says, and no SIT block copy the last checkpoint uses is touched.
     */
    method FlushSitEntries()
      requires v.Valid() && SitOk(v, SitNow()) && BackedNow()
      modifies this`sentries, this`dirtySentries, this`nrDirtySentries, area
      ensures SitNow() == Flush(old(SitNow()))
      ensures IsSit(area.l) && StoreOk(area.l, area.S()) && Backed(area.l, SitNow(), area.S())
      ensures forall k: nat :: k < |sentries| ==> Stored(area.l, area.S(), k) == Raw(sentries[k])
      ensures Shadowed(area.l, area.S(), area.dirtyPages, old(area.bitmap), old(area.pages))
      ensures forall b: nat :: b < area.l.blocks ==> OldCopyKept(area.l, b, old(area.bitmap), old(area.pages), area.pages)
    {
      ghost var cp, before := area.bitmap, area.pages;
      var flushed := FlushSitsInJournal();
      ShadowStart(area.l, area.S(), area.dirtyPages);
      FlushDirtySits(flushed, cp, before);
      ShadowedCopies(area.l, area.S(), area.dirtyPages, cp, before);
    }

    /** set_prefree_as_free_segments. */
    method SetPrefreeAsFreeSegments()
      requires v.Valid() && FreeOk(v, FreeNow()) && Shape(MarksNow(), v.segs)
      modifies this`freeSegmap, this`freeSecmap, this`freeSegments, this`freeSections
      ensures FreeNow() == FreePre(v, old(FreeNow()), dirtySegmap[PRE], v.segs)
    {
      ghost var f := FreeNow();
      var pre := dirtySegmap[PRE];
      var segno: nat := 0;
      while segno < v.segs
        invariant segno <= v.segs && FreeNow() == FreePre(v, f, pre, segno)
      {
        FreeNextPre(pre, segno, f);
        segno := segno + 1;
      }
    }

    /** One turn of that loop. */
    method FreeNextPre(pre: seq<bool>, segno: nat, ghost f: FreeMap)
      requires v.Valid() && FreeOk(v, f) && segno < v.segs == |pre| && FreeNow() == FreePre(v, f, pre, segno)
      modifies this`freeSegmap, this`freeSecmap, this`freeSegments, this`freeSections
      ensures FreeNow() == FreePre(v, f, pre, segno + 1)
    {
      FreePreStep(v, f, pre, segno);
      FreeIf(pre[segno], segno);
    }

    method FreeIf(prefree: bool, segno: nat)
      requires v.Valid() && FreeOk(v, FreeNow()) && segno < v.segs
      modifies this`freeSegmap, this`freeSecmap, this`freeSegments, this`freeSections
      ensures FreeNow() == if prefree then SetFree(v, old(FreeNow()), segno) else old(FreeNow())
    {
      if prefree {
        SetTestAndFree(segno);
      }
    }

    /** clear_prefree_segments: the PRE bits are cleared run by run, each run counted once. */
    method ClearPrefreeSegments()
      requires MarksOk(MarksNow(), v.segs)
      modifies this`dirtySegmap, this`nrDirty
      ensures MarksNow() == ClearPre(old(MarksNow()), v.segs)
    {
      ghost var m := MarksNow();
      var pre := dirtySegmap[PRE];
      var nr := nrDirty[PRE];
      var start: nat, end: nat := NextOne(pre, 0), 0;
      while start < v.segs
        invariant MarksNow() == m
        invariant |pre| == v.segs && end <= start <= v.segs && start == NextOne(pre, end)
        invariant nr == m.nr[PRE] - Ones(m.maps[PRE]) + Ones(pre)
        invariant forall k :: 0 <= k < end ==> !pre[k]
        decreases v.segs - start
      {
        end := NextZero(pre, start + 1);
        pre := ClearRun(pre, start, end);
        nr := nr - (end - start);
        start := NextOne(pre, end);
      }
      OnesZero(pre);
      assert pre == seq(|m.maps[PRE]|, _ => false);
      dirtySegmap := dirtySegmap[PRE := pre];
      nrDirty := nrDirty[PRE := nr];
    }

    /** The inner loop of clear_prefree_segments. */
    static method ClearRun(bits: seq<bool>, start: nat, end: nat) returns (r: seq<bool>)
      requires start <= end <= |bits| && forall k :: start <= k < end ==> bits[k]
      ensures |r| == |bits| && Ones(r) == Ones(bits) - (end - start)
      ensures forall k :: 0 <= k < |bits| ==> r[k] == (bits[k] && !(start <= k < end))
    {
      r := bits;
      var i := start;
      while i < end
        invariant start <= i <= end && |r| == |bits| && Ones(r) == Ones(bits) - (i - start)
        invariant forall k :: 0 <= k < |bits| ==> r[k] == (bits[k] && !(start <= k < i))
      {
        OnesUpdate(r, i, false);
        r := r[i := false];
        i := i + 1;
      }
    }

    /**
     * The segment manager's part of write_checkpoint.  What is on disk afterwards is what a mount needs to
     * give back this state; until then the copies the last checkpoint uses were not touched.
     */
    method WriteCheckpoint()
      requires Inv(St()) && BackedNow()
      modifies this, area
      ensures St() == Checkpoint(old(St())) && Inv(St()) && BackedNow()
      ensures HoldsImage(area, ImageOf(St()))
      ensures forall b: nat :: b < area.l.blocks ==> OldCopyKept(area.l, b, old(area.bitmap), old(area.pages), area.pages)
    {
      ghost var s := St();
      CheckpointKeeps(s);
      FlushAndWrite();
      FreePrefreeSegments();
      assert St() == Checkpoint(s);
      FlushedHoldsImage(area, St());
    }

    /** flush_sit_entries, and its pages written. */
    method FlushAndWrite()
      requires v.Valid() && SitOk(v, SitNow()) && BackedNow()
      modifies this`sentries, this`dirtySentries, this`nrDirtySentries, area
      ensures SitNow() == Flush(old(SitNow())) && BackedNow()
      ensures forall b: nat :: b < area.l.blocks ==> OldCopyKept(area.l, b, old(area.bitmap), old(area.pages), area.pages)
    {
      FlushSitEntries();
      area.WritePages();
    }

    /** set_prefree_as_free_segments, and clear_prefree_segments once the pack is written. */
    method FreePrefreeSegments()
      requires v.Valid() && FreeOk(v, FreeNow()) && MarksOk(MarksNow(), v.segs)
      modifies this`freeSegmap, this`freeSecmap, this`freeSegments, this`freeSections, this`dirtySegmap, this`nrDirty
      ensures FreeNow() == FreePre(v, old(FreeNow()), old(dirtySegmap)[PRE], v.segs)
      ensures MarksNow() == ClearPre(old(MarksNow()), v.segs)
    {
      SetPrefreeAsFreeSegments();
      ClearPrefreeSegments();
    }
  }
}
