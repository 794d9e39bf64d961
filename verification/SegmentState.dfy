/**
 * The segment manager as a state machine.  Each step is one section of code run under
 * sentry_lock (allocation, invalidation) or one whole checkpoint.  Which segment a log moves to
 * is a parameter: `Legal` says what the policy code guarantees about it, and SegmentManager.dfy
 * proves that the policy code keeps that promise.
 */
module SegmentState {
  import opened Bitmaps
  import opened Geometry
  import opened FreeSegmap
  import opened DirtySeglist
  import opened SitInfo

  /** curseg_info: one of the six append points. */
  datatype Log = Log(segno: nat, blkoff: nat, ssr: bool, zone: nat)

  datatype State = State(v: Volume, sit: Sit, free: FreeMap, marks: Marks, victimSec: seq<bool>, logs: seq<Log>)

  // ----- invariant -----

  ghost predicate IsCur(logs: seq<Log>, k: nat) {
    exists t :: 0 <= t < |logs| && logs[t].segno == k
  }

  /** sec_usage_check: some log is in the section, or the foreground collector is cleaning it. */
  ghost predicate SecInUse(v: Volume, logs: seq<Log>, curVictimSec: int, sec: nat)
    requires 0 < v.segsPerSec
  {
    curVictimSec == sec || exists t :: 0 <= t < |logs| && v.SecOf(logs[t].segno) == sec
  }

  ghost predicate SecMarked(secs: seq<bool>, sec: nat) {
    sec < |secs| && secs[sec]
  }

  ghost predicate Distinct(logs: seq<Log>) {
    forall a, b :: 0 <= a < b < |logs| ==> logs[a].segno != logs[b].segno
  }

  /** The blocks a log will still hand out are holes of its own segment. */
  ghost predicate LogOk(v: Volume, se: seq<SegEntry>, log: Log, typ: nat)
    requires v.Valid() && |se| == v.segs
  {
    && log.segno < v.segs && log.blkoff <= v.blocksPerSeg
    && log.zone == v.ZoneOf(log.segno)
    && se[log.segno].typ == typ
    && (log.ssr && log.blkoff < v.blocksPerSeg ==> Hole(se[log.segno], log.blkoff))
    && (!log.ssr ==> forall o :: log.blkoff <= o < v.blocksPerSeg ==> Hole(se[log.segno], o))
  }

  /** What holds at every program point. */
  ghost predicate Base(s: State) {
    && s.v.Valid() && SitOk(s.v, s.sit) && FreeOk(s.v, s.free) && MarksOk(s.marks, s.v.segs)
    && |s.victimSec| == s.v.Secs()
    && |s.logs| == NR_LOGS && Distinct(s.logs)
    && (forall t :: 0 <= t < NR_LOGS ==> LogOk(s.v, s.sit.se, s.logs[t], t))
  }

  ghost predicate Empty(e: SegEntry) {
    (forall o :: 0 <= o < |e.cur| ==> !e.cur[o]) && (forall o :: 0 <= o < |e.ckpt| ==> !e.ckpt[o])
  }

  /** A segment is current, free, prefree, dirty or full, and the bitmaps say which. */
  ghost predicate SegOk(s: State, k: nat)
    requires Base(s) && k < s.v.segs
  {
    var e := s.sit.se[k];
    if IsCur(s.logs, k) then s.free.used[k] && NoMarks(s.marks, s.v.segs, k)
    else if !s.free.used[k] then Empty(e) && NoMarks(s.marks, s.v.segs, k)
    else
      && (s.marks.maps[PRE][k] <==> e.valid == 0)
      && (s.marks.maps[DIRTY][k] <==> 0 < e.valid < s.v.blocksPerSeg)
      && TypeMarks(s.marks, s.v.segs, e.typ, k)
  }

  /** Between a validity change and locate_dirty_segment the marks of one segment may lag behind. */
  ghost predicate Pending(s: State, k: nat)
    requires Base(s) && k < s.v.segs
  {
    && s.free.used[k]
    && (IsCur(s.logs, k) ==> NoMarks(s.marks, s.v.segs, k))
    && (!IsCur(s.logs, k) ==>
        (s.marks.maps[PRE][k] ==> s.sit.se[k].valid == 0) && TypeMarks(s.marks, s.v.segs, s.sit.se[k].typ, k))
  }

  ghost predicate InvBut(s: State, lag: set<nat>) {
    Base(s) && forall k: nat :: k < s.v.segs ==> if k in lag then Pending(s, k) else SegOk(s, k)
  }

  /** Between operations every segment is classified and every log has a block to hand out. */
  ghost predicate Inv(s: State) {
    InvBut(s, {}) && forall t :: 0 <= t < NR_LOGS ==> s.logs[t].blkoff < s.v.blocksPerSeg
  }

  // ----- steps -----

  /** GET_VALID_BLOCKS over the section of k. */
  function SectionValid(s: State, k: nat): int
    requires Base(s) && k < s.v.segs
  {
    if s.v.segsPerSec > 1 && s.v.SecOf(k) < |s.sit.secValid| then s.sit.secValid[s.v.SecOf(k)] else s.sit.se[k].valid
  }

  /** __remove_dirty_segment(DIRTY). */
  function RemoveDirty(s: State, k: nat): State
    requires Base(s) && k < s.v.segs
  {
    var m := Unmark(Unmark(s.marks, s.v.segs, DIRTY, k), s.v.segs, s.sit.se[k].typ, k);
    s.(marks := m,
       victimSec := if SectionValid(s, k) == 0 then PutBit(s.victimSec, s.v.SecOf(k), false) else s.victimSec)
  }

  /** __locate_dirty_segment(DIRTY) on a segment that is not current. */
  function AddDirty(s: State, k: nat): State
    requires Base(s) && k < s.v.segs
  {
    s.(marks := Mark(Mark(s.marks, s.v.segs, DIRTY, k), s.v.segs, s.sit.se[k].typ, k))
  }

  function AddPre(s: State, k: nat): State
    requires Base(s) && k < s.v.segs
  {
    s.(marks := Mark(s.marks, s.v.segs, PRE, k))
  }

  function RemovePre(s: State, k: nat): State
    requires Base(s) && k < s.v.segs
  {
    s.(marks := Unmark(s.marks, s.v.segs, PRE, k))
  }

  lemma RemoveDirtyOk(s: State, k: nat)
    requires Base(s) && k < s.v.segs
    ensures Base(RemoveDirty(s, k))
  {
    UnmarkOk(s.marks, s.v.segs, DIRTY, k);
    UnmarkOk(Unmark(s.marks, s.v.segs, DIRTY, k), s.v.segs, s.sit.se[k].typ, k);
  }

  lemma AddDirtyOk(s: State, k: nat)
    requires Base(s) && k < s.v.segs
    ensures Base(AddDirty(s, k))
  {
    MarkOk(s.marks, s.v.segs, DIRTY, k);
    MarkOk(Mark(s.marks, s.v.segs, DIRTY, k), s.v.segs, s.sit.se[k].typ, k);
  }

  lemma AddPreOk(s: State, k: nat)
    requires Base(s) && k < s.v.segs
    ensures Base(AddPre(s, k))
  {
    MarkOk(s.marks, s.v.segs, PRE, k);
  }

  lemma RemovePreOk(s: State, k: nat)
    requires Base(s) && k < s.v.segs
    ensures Base(RemovePre(s, k))
  {
    UnmarkOk(s.marks, s.v.segs, PRE, k);
  }

  /** locate_dirty_segment. */
  ghost function Locate(s: State, k: nat): State
    requires Base(s) && k < s.v.segs
  {
    if IsCur(s.logs, k) then s
    else if s.sit.se[k].valid == 0 then AddPreOk(s, k); RemoveDirty(AddPre(s, k), k)
    else if s.sit.se[k].valid < s.v.blocksPerSeg then AddDirty(s, k)
    else RemoveDirty(s, k)
  }

  ghost predicate NoneValid(e: SegEntry) {
    forall o :: 0 <= o < |e.cur| ==> !e.cur[o]
  }

  /** No block of the section is valid. */
  ghost predicate SectionEmpty(v: Volume, se: seq<SegEntry>, sec: nat)
    requires 0 < v.segsPerSec
  {
    forall j :: 0 <= j < |se| && v.SecOf(j) == sec ==> NoneValid(se[j])
  }

  lemma {:induction false} SumIsZero(v: Volume, se: seq<SegEntry>, lo: nat, hi: nat)
    requires hi <= |se| && forall j :: lo <= j < hi ==> EntryOk(se[j], v.blocksPerSeg)
    ensures SumValid(se, lo, hi) >= 0
    ensures SumValid(se, lo, hi) == 0 <==> forall j :: lo <= j < hi ==> NoneValid(se[j])
  {
    if lo < hi {
      SumIsZero(v, se, lo, hi - 1);
      OnesZero(se[hi - 1].cur);
    }
  }

  /** The segments of a section in a row. */
  lemma EmptyRow(v: Volume, se: seq<SegEntry>, sec: nat, lo: nat)
    requires v.Valid() && lo == sec * v.segsPerSec && lo + v.segsPerSec <= |se|
    ensures SectionEmpty(v, se, sec) <==> forall j :: lo <= j < lo + v.segsPerSec ==> NoneValid(se[j])
  {
    forall j: nat ensures v.SecOf(j) == sec <==> lo <= j < lo + v.segsPerSec {
      SectionOf(v, j, sec);
    }
  }

  lemma SectionValidZero(s: State, k: nat)
    requires Base(s) && k < s.v.segs
    ensures SectionValid(s, k) == 0 <==> SectionEmpty(s.v, s.sit.se, s.v.SecOf(k))
  {
    SectionInRange(s.v, k);
    var lo := s.v.SecOf(k) * s.v.segsPerSec;
    EmptyRow(s.v, s.sit.se, s.v.SecOf(k), lo);
    SumIsZero(s.v, s.sit.se, lo, lo + s.v.segsPerSec);
    if s.v.segsPerSec > 1 {
      assert SectionSum(s.v, s.sit, s.v.SecOf(k));
    } else {
      SumIsZero(s.v, s.sit.se, k, k + 1);
      assert SumValid(s.sit.se, k, k + 1) == SumValid(s.sit.se, k, k) + s.sit.se[k].valid;
    }
  }

  /**
   * Taking a segment off the dirty lists takes the victim mark off its section exactly when no block of the
   * whole section is valid any more; no other mark changes, and none is set.
   */
  lemma {:induction false} VictimMarks(s: State, k: nat)
    requires Base(s) && k < s.v.segs
    ensures |RemoveDirty(s, k).victimSec| == |s.victimSec|
    ensures forall j :: 0 <= j < |s.victimSec| ==> (RemoveDirty(s, k).victimSec[j] <==>
      s.victimSec[j] && !(j == s.v.SecOf(k) && SectionEmpty(s.v, s.sit.se, j)))
  {
    SectionValidZero(s, k);
  }

  lemma LocatePre(s: State, k: nat)
    requires Base(s) && k < s.v.segs && Pending(s, k) && !IsCur(s.logs, k) && s.sit.se[k].valid == 0
    ensures Base(Locate(s, k)) && SegOk(Locate(s, k), k)
  {
    AddPreOk(s, k); RemoveDirtyOk(AddPre(s, k), k);
  }

  lemma LocateDirty(s: State, k: nat)
    requires Base(s) && k < s.v.segs && Pending(s, k) && !IsCur(s.logs, k)
    requires s.sit.se[k].valid != 0
    ensures Base(Locate(s, k)) && SegOk(Locate(s, k), k)
  {
    AddDirtyOk(s, k); RemoveDirtyOk(s, k);
    assert EntryOk(s.sit.se[k], s.v.blocksPerSeg);
  }

  /** r differs from s only in the marks of k and in the victim bits. */
  ghost predicate SameBut(s: State, r: State, k: nat)
    requires Base(s)
  {
    && r.sit == s.sit && r.free == s.free && r.logs == s.logs && r.v == s.v
    && Shape(r.marks, s.v.segs)
    && forall t, j :: 0 <= t < NR_DIRTY && 0 <= j < s.v.segs && j != k ==> r.marks.maps[t][j] == s.marks.maps[t][j]
  }

  lemma LocateFrame(s: State, k: nat)
    requires Base(s) && k < s.v.segs
    ensures SameBut(s, Locate(s, k), k)
    ensures Base(Locate(s, k))
  {
    if IsCur(s.logs, k) {
    } else if s.sit.se[k].valid == 0 {
      AddPreOk(s, k);
      RemoveDirtyOk(AddPre(s, k), k);
    } else if s.sit.se[k].valid < s.v.blocksPerSeg {
      AddDirtyOk(s, k);
    } else {
      RemoveDirtyOk(s, k);
    }
  }

  /** Classification of j depends only on its entry, its marks, and the shared maps. */
  lemma SegKept(s: State, r: State, j: nat)
    requires Base(s) && Base(r) && s.v == r.v && j < s.v.segs
    requires s.sit.se[j] == r.sit.se[j] && s.free.used[j] == r.free.used[j]
    requires IsCur(s.logs, j) == IsCur(r.logs, j)
    requires forall t :: 0 <= t < NR_DIRTY ==> s.marks.maps[t][j] == r.marks.maps[t][j]
    ensures SegOk(s, j) == SegOk(r, j) && Pending(s, j) == Pending(r, j)
  {
  }

  /** Locating a lagging segment puts its marks right and touches no other segment. */
  lemma {:induction false} LocateOk(s: State, k: nat, lag: set<nat>)
    requires InvBut(s, lag) && k < s.v.segs && Pending(s, k)
    ensures InvBut(Locate(s, k), lag - {k})
  {
    var r := Locate(s, k);
    LocateFrame(s, k);
    if !IsCur(s.logs, k) {
      if s.sit.se[k].valid == 0 { LocatePre(s, k); } else { LocateDirty(s, k); }
    }
    forall j: nat | j < s.v.segs && j != k ensures if j in lag - {k} then Pending(r, j) else SegOk(r, j) {
      SegKept(s, r, j);
    }
  }

  /** refresh_next_blkoff, then refresh_sit_entry. */
  function NextOff(s: State, t: nat): nat
    requires Base(s) && t < NR_LOGS
  {
    var log := s.logs[t];
    var e := s.sit.se[log.segno];
    if log.ssr then NextZero(Union(e.ckpt, e.cur), log.blkoff + 1) else log.blkoff + 1
  }

  /** The block the next allocation from log t returns. */
  function NextBlock(s: State, t: nat): Block
    requires t < |s.logs|
  {
    Block(s.logs[t].segno, s.logs[t].blkoff)
  }

  ghost predicate IsValidBlock(s: State, b: Block)
    requires Base(s)
  {
    InMain(s.v, b) && s.sit.se[b.seg].cur[b.off]
  }

  datatype OldBlock = NoBlock | OldBlock(b: Block)

  /** The log hands out its next block. */
  function TakeBlock(s: State, t: nat): State
    requires Base(s) && t < NR_LOGS && s.logs[t].blkoff < s.v.blocksPerSeg
  {
    s.(sit := UpdateSit(s.v, s.sit, NextBlock(s, t), true),
       logs := s.logs[t := s.logs[t].(blkoff := NextOff(s, t))])
  }

  /** update_sit_entry(-1): a block stops being valid. */
  function DropBlock(s: State, b: Block): State
    requires Base(s) && InMain(s.v, b)
  {
    s.(sit := UpdateSit(s.v, s.sit, b, false))
  }

  /** How the log goes on: same segment, a free segment (LFS), or a victim segment (SSR). */
  datatype Choice = Keep | Open(seg: nat) | Reuse(seg: nat)

  /** What the allocation policy guarantees about its choice. */
  ghost predicate Legal(s: State, t: nat, c: Choice)
    requires Base(s) && t < NR_LOGS
  {
    match c
    case Keep => s.logs[t].blkoff < s.v.blocksPerSeg
    case Open(k) => s.logs[t].blkoff >= s.v.blocksPerSeg && k < s.v.segs && !s.free.used[k]
    case Reuse(k) =>
      && s.logs[t].blkoff >= s.v.blocksPerSeg && k < s.v.segs
      && s.sit.se[k].ckptValid < s.v.blocksPerSeg
      && t != WARM_NODE
      && (exists d :: 0 <= d < NR_LOGS && SsrSource(t, d) && s.marks.maps[d][k])
  }

  /** Which dirty lists log t may take a victim from. */
  ghost predicate SsrSource(t: nat, d: nat) {
    if t >= HOT_NODE then d == t && t < NR_LOGS else d <= t
  }

  /** new_curseg's effect once the segment is chosen. */
  function OpenLog(s: State, t: nat, k: nat): State
    requires Base(s) && t < NR_LOGS && k < s.v.segs
  {
    s.(free := SetInuse(s.v, s.free, k), sit := SetType(s.sit, k, t),
       logs := s.logs[t := Log(k, 0, false, s.v.ZoneOf(k))])
  }

  /** change_curseg's effect once the victim is chosen. */
  function ReuseLog(s: State, t: nat, k: nat): State
    requires Base(s) && t < NR_LOGS && k < s.v.segs
  {
    var s1 := s.(free := SetInuse(s.v, s.free, k));
    SetInuseOk(s.v, s.free, k);
    RemovePreOk(s1, k);
    var s2 := RemoveDirty(RemovePre(s1, k), k);
    var e := s2.sit.se[k];
    s2.(sit := SetType(s2.sit, k, t),
        logs := s2.logs[t := Log(k, NextZero(Union(e.ckpt, e.cur), 0), true, s.v.ZoneOf(k))])
  }

  function Switch(s: State, t: nat, c: Choice): State
    requires Base(s) && t < NR_LOGS && (c.Open? ==> c.seg < s.v.segs) && (c.Reuse? ==> c.seg < s.v.segs)
  {
    match c
    case Keep => s
    case Open(k) => OpenLog(s, t, k)
    case Reuse(k) => ReuseLog(s, t, k)
  }

  // ----- the steps keep the invariant -----

  lemma TakeLog(s: State, t: nat)
    requires Base(s) && t < NR_LOGS && s.logs[t].blkoff < s.v.blocksPerSeg
    ensures LogOk(s.v, TakeBlock(s, t).sit.se, TakeBlock(s, t).logs[t], t)
  {
    assert EntryOk(s.sit.se[s.logs[t].segno], s.v.blocksPerSeg);
    var e := s.sit.se[s.logs[t].segno];
    var e' := TakeBlock(s, t).sit.se[s.logs[t].segno];
    if s.logs[t].ssr {
      assert NextOff(s, t) < s.v.blocksPerSeg ==> !Union(e.ckpt, e.cur)[NextOff(s, t)];
    } else {
      forall o | NextOff(s, t) <= o < s.v.blocksPerSeg ensures Hole(e', o) {
        assert Hole(e, o);
      }
    }
  }

  lemma NextBlockIsHole(s: State, t: nat)
    requires Base(s) && t < NR_LOGS && s.logs[t].blkoff < s.v.blocksPerSeg
    ensures InMain(s.v, NextBlock(s, t))
    ensures Hole(s.sit.se[s.logs[t].segno], s.logs[t].blkoff)
  {
    assert LogOk(s.v, s.sit.se, s.logs[t], t);
  }

  /** A log goes on at the first hole behind the block it hands out, or it is full. */
  lemma NextOffIsNextHole(s: State, t: nat)
    requires Base(s) && t < NR_LOGS && s.logs[t].blkoff < s.v.blocksPerSeg
    ensures s.logs[t].blkoff < NextOff(s, t) <= s.v.blocksPerSeg
    ensures NextOff(s, t) < s.v.blocksPerSeg ==> Hole(s.sit.se[s.logs[t].segno], NextOff(s, t))
    ensures forall o: nat :: s.logs[t].blkoff < o < NextOff(s, t) ==> !Hole(s.sit.se[s.logs[t].segno], o)
  {
    var log := s.logs[t];
    assert LogOk(s.v, s.sit.se, log, t) && EntryOk(s.sit.se[log.segno], s.v.blocksPerSeg);
    if log.ssr { HoleSearch(s.sit.se[log.segno], s.v.blocksPerSeg, log.blkoff + 1); }
  }

  /** Searching both maps or-ed together finds the next hole. */
  lemma HoleSearch(e: SegEntry, blocks: nat, from: nat)
    requires EntryOk(e, blocks) && from <= blocks
    ensures var pos := NextZero(Union(e.ckpt, e.cur), from);
      from <= pos <= blocks && (pos < blocks ==> Hole(e, pos)) && forall o: nat :: from <= o < pos ==> !Hole(e, o)
  {
    var pos := NextZero(Union(e.ckpt, e.cur), from);
    forall o: nat | from <= o < pos ensures !Hole(e, o) {
      assert Union(e.ckpt, e.cur)[o];
    }
  }

  lemma TakeOk(s: State, t: nat)
    requires Base(s) && t < NR_LOGS && s.logs[t].blkoff < s.v.blocksPerSeg
    ensures Base(TakeBlock(s, t))
  {
    NextBlockIsHole(s, t);
    UpdateSitOk(s.v, s.sit, NextBlock(s, t), true);
    TakeLog(s, t);
    var r := TakeBlock(s, t);
    forall i | 0 <= i < NR_LOGS && i != t ensures LogOk(s.v, r.sit.se, r.logs[i], i) {
      assert LogOk(s.v, s.sit.se, s.logs[i], i);
      assert s.logs[i].segno != s.logs[t].segno;
    }
  }

  lemma DropLog(v: Volume, sit: Sit, b: Block, log: Log, typ: nat)
    requires v.Valid() && SitOk(v, sit) && InMain(v, b) && LogOk(v, sit.se, log, typ)
    ensures LogOk(v, UpdateSit(v, sit, b, false).se, log, typ)
  {
    if !log.ssr {
      forall o | log.blkoff <= o < v.blocksPerSeg ensures Hole(UpdateSit(v, sit, b, false).se[log.segno], o) {
        assert Hole(sit.se[log.segno], o);
      }
    }
  }

  lemma DropOk(s: State, b: Block)
    requires Base(s) && IsValidBlock(s, b)
    ensures Base(DropBlock(s, b))
  {
    UpdateSitOk(s.v, s.sit, b, false);
    forall i | 0 <= i < NR_LOGS ensures LogOk(s.v, DropBlock(s, b).sit.se, s.logs[i], i) {
      DropLog(s.v, s.sit, b, s.logs[i], i);
    }
  }

  lemma CurUnchanged(a: seq<Log>, b: seq<Log>, k: nat)
    requires |a| == |b| && forall t :: 0 <= t < |a| ==> a[t].segno == b[t].segno
    ensures IsCur(a, k) == IsCur(b, k)
  {
    if IsCur(a, k) {
      var t :| 0 <= t < |a| && a[t].segno == k;
      assert b[t].segno == k;
    }
  }

  lemma {:induction false} TakeKeeps(s: State, t: nat)
    requires InvBut(s, {}) && t < NR_LOGS && s.logs[t].blkoff < s.v.blocksPerSeg
    ensures InvBut(TakeBlock(s, t), {})
  {
    TakeOk(s, t);
    var r := TakeBlock(s, t);
    forall j: nat | j < s.v.segs ensures SegOk(r, j) {
      CurUnchanged(s.logs, r.logs, j);
      if j == s.logs[t].segno {
        assert IsCur(s.logs, j) && SegOk(s, j);
      } else {
        SegKept(s, r, j);
      }
    }
  }

  lemma ValidBlockUsed(s: State, b: Block)
    requires InvBut(s, {}) && IsValidBlock(s, b)
    ensures s.free.used[b.seg]
  {
    assert SegOk(s, b.seg);
  }

  lemma DropPending(s: State, b: Block)
    requires InvBut(s, {}) && IsValidBlock(s, b)
    ensures Base(DropBlock(s, b)) && Pending(DropBlock(s, b), b.seg)
  {
    DropOk(s, b);
    ValidBlockUsed(s, b);
    assert SegOk(s, b.seg) && EntryOk(s.sit.se[b.seg], s.v.blocksPerSeg);
    OnesZero(s.sit.se[b.seg].cur);
  }

  lemma {:induction false} DropKeeps(s: State, b: Block)
    requires InvBut(s, {}) && IsValidBlock(s, b)
    ensures InvBut(DropBlock(s, b), {b.seg})
  {
    DropPending(s, b);
    var r := DropBlock(s, b);
    forall j: nat | j < s.v.segs && j != b.seg ensures SegOk(r, j) {
      SegKept(s, r, j);
    }
  }

  lemma LogKept(s: State, r: State, i: nat)
    requires Base(s) && s.v == r.v && |r.sit.se| == s.v.segs && |r.logs| == NR_LOGS && i < NR_LOGS
    requires r.logs[i] == s.logs[i] && r.sit.se[s.logs[i].segno] == s.sit.se[s.logs[i].segno]
    ensures LogOk(s.v, r.sit.se, r.logs[i], i)
  {
    assert LogOk(s.v, s.sit.se, s.logs[i], i);
  }

  lemma MovedLogs(a: seq<Log>, t: nat, log: Log)
    requires Distinct(a) && t < |a| && !IsCur(a, log.segno)
    ensures Distinct(a[t := log])
    ensures forall k: nat :: IsCur(a[t := log], k) <==> k == log.segno || (k != a[t].segno && IsCur(a, k))
  {
    var b := a[t := log];
    assert forall x :: 0 <= x < |a| ==> a[x].segno != log.segno;
    forall k: nat ensures IsCur(b, k) <==> k == log.segno || (k != a[t].segno && IsCur(a, k)) {
      if k == log.segno { assert b[t].segno == k; }
      if k != a[t].segno && IsCur(a, k) {
        var x :| 0 <= x < |a| && a[x].segno == k;
        assert b[x].segno == k;
      }
      if IsCur(b, k) && k != log.segno {
        var x :| 0 <= x < |b| && b[x].segno == k;
        assert x != t && a[x].segno == k;
      }
    }
  }

  /** A segment just left by its log is unmarked, so only its own location is outstanding. */
  lemma LeftSegPending(s: State, r: State, o: nat)
    requires Base(s) && Base(r) && s.v == r.v && o < s.v.segs && IsCur(s.logs, o)
    requires SegOk(s, o) || Pending(s, o)
    requires s.sit.se[o] == r.sit.se[o] && r.free.used[o]
    requires forall t :: 0 <= t < NR_DIRTY ==> s.marks.maps[t][o] == r.marks.maps[t][o]
    ensures Pending(r, o)
  {
  }

  lemma OpenBase(s: State, t: nat, k: nat)
    requires Base(s) && t < NR_LOGS && k < s.v.segs && !IsCur(s.logs, k) && Empty(s.sit.se[k])
    ensures Base(OpenLog(s, t, k))
  {
    var r := OpenLog(s, t, k);
    SetInuseOk(s.v, s.free, k);
    SetTypeOk(s.v, s.sit, k, t);
    MovedLogs(s.logs, t, r.logs[t]);
    forall i | 0 <= i < NR_LOGS ensures LogOk(s.v, r.sit.se, r.logs[i], i) {
      if i == t {
        assert EntryOk(s.sit.se[k], s.v.blocksPerSeg);
      } else {
        LogKept(s, r, i);
      }
    }
  }

  /** r is s after log t has moved to the unmarked segment k; nothing else has changed. */
  ghost predicate MovedTo(s: State, r: State, t: nat, k: nat)
    requires Base(s) && Base(r) && t < NR_LOGS && k < s.v.segs
  {
    && r.v == s.v && r.logs == s.logs[t := r.logs[t]] && r.logs[t].segno == k && !IsCur(s.logs, k)
    && r.free.used[k] && NoMarks(r.marks, s.v.segs, k)
    && forall j :: 0 <= j < s.v.segs && j != k ==> SameSegment(s, r, j)
  }

  ghost predicate SameSegment(s: State, r: State, j: nat)
    requires Base(s) && Base(r) && r.v == s.v && j < s.v.segs
  {
    && s.sit.se[j] == r.sit.se[j] && s.free.used[j] == r.free.used[j]
    && forall d :: 0 <= d < NR_DIRTY ==> s.marks.maps[d][j] == r.marks.maps[d][j]
  }

  /** Only the segment the log left is still to be located. */
  lemma {:induction false} MovedToOk(s: State, r: State, lag: set<nat>, t: nat, k: nat)
    requires InvBut(s, lag) && Base(r) && t < NR_LOGS && k < s.v.segs && MovedTo(s, r, t, k)
    ensures InvBut(r, lag + {s.logs[t].segno})
  {
    var o := s.logs[t].segno;
    MovedLogs(s.logs, t, r.logs[t]);
    assert IsCur(s.logs, o) && LogOk(s.v, s.sit.se, s.logs[t], t);
    assert SegOk(s, o) || Pending(s, o);
    forall j: nat | j < s.v.segs ensures if j in lag + {o} then Pending(r, j) else SegOk(r, j) {
      assert j != k ==> SameSegment(s, r, j);
      if j == o {
        LeftSegPending(s, r, o);
      } else if j != k {
        SegKept(s, r, j);
      }
    }
  }

  lemma OpenMoves(s: State, t: nat, k: nat, r: State)
    requires Base(s) && t < NR_LOGS && k < s.v.segs && !IsCur(s.logs, k) && r == OpenLog(s, t, k)
    requires Empty(s.sit.se[k]) && NoMarks(s.marks, s.v.segs, k)
    ensures Base(r) && MovedTo(s, r, t, k)
  {
    OpenBase(s, t, k);
    SetInuseOk(s.v, s.free, k);
    forall j | 0 <= j < s.v.segs && j != k ensures SameSegment(s, r, j) {
    }
  }

  /** What InvBut says about a segment that is not in use. */
  lemma FreeSegment(s: State, lag: set<nat>, k: nat)
    requires InvBut(s, lag) && k < s.v.segs && !s.free.used[k]
    ensures !IsCur(s.logs, k) && Empty(s.sit.se[k]) && NoMarks(s.marks, s.v.segs, k)
  {
    assert k !in lag && SegOk(s, k);
  }

  lemma {:induction false} OpenOk(s: State, lag: set<nat>, t: nat, k: nat)
    requires InvBut(s, lag) && t < NR_LOGS && k < s.v.segs && !s.free.used[k]
    ensures InvBut(OpenLog(s, t, k), lag + {s.logs[t].segno})
  {
    FreeSegment(s, lag, k);
    OpenMoves(s, t, k, OpenLog(s, t, k));
    MovedToOk(s, OpenLog(s, t, k), lag, t, k);
  }

  /** Dropping the marks of a victim: what change_curseg does before it resets the log. */
  function StripMarks(s: State, k: nat): State
    requires Base(s) && k < s.v.segs
  {
    RemovePreOk(s, k);
    RemoveDirty(RemovePre(s, k), k)
  }

  lemma StripOk(s: State, k: nat)
    requires Base(s) && k < s.v.segs && TypeMarks(s.marks, s.v.segs, s.sit.se[k].typ, k)
    ensures Base(StripMarks(s, k)) && NoMarks(StripMarks(s, k).marks, s.v.segs, k)
    ensures forall d, j :: 0 <= d < NR_DIRTY && 0 <= j < s.v.segs && j != k ==>
      StripMarks(s, k).marks.maps[d][j] == s.marks.maps[d][j]
  {
    RemovePreOk(s, k);
    RemoveDirtyOk(RemovePre(s, k), k);
  }

  lemma VictimHasHole(e: SegEntry, blocks: nat)
    requires EntryOk(e, blocks) && e.ckptValid < blocks
    ensures NextZero(Union(e.ckpt, e.cur), 0) < blocks
    ensures Hole(e, NextZero(Union(e.ckpt, e.cur), 0))
    ensures forall o: nat :: o < NextZero(Union(e.ckpt, e.cur), 0) ==> !Hole(e, o)
  {
    HoleSearch(e, blocks, 0);
    assert Union(e.ckpt, e.cur) == Union(e.cur, e.ckpt);
    OnesFull(Union(e.cur, e.ckpt));
  }

  lemma ReuseBase(s: State, t: nat, k: nat)
    requires Base(s) && t < NR_LOGS && k < s.v.segs && !IsCur(s.logs, k) && s.free.used[k]
    requires TypeMarks(s.marks, s.v.segs, s.sit.se[k].typ, k)
    requires s.sit.se[k].ckptValid < s.v.blocksPerSeg
    ensures ReuseLog(s, t, k) == StripMarks(s, k).(sit := SetType(s.sit, k, t), logs := ReuseLog(s, t, k).logs)
    ensures Base(ReuseLog(s, t, k)) && ReuseLog(s, t, k).logs[t].blkoff < s.v.blocksPerSeg
  {
    var r := ReuseLog(s, t, k);
    assert SetInuse(s.v, s.free, k) == s.free;
    assert s.(free := s.free) == s;
    StripOk(s, k);
    SetTypeOk(s.v, s.sit, k, t);
    MovedLogs(s.logs, t, r.logs[t]);
    VictimHasHole(s.sit.se[k], s.v.blocksPerSeg);
    forall i | 0 <= i < NR_LOGS && i != t ensures LogOk(s.v, r.sit.se, r.logs[i], i) {
      assert s.logs[i].segno != k;
      LogKept(s, r, i);
    }
  }

  lemma ReuseMoves(s: State, t: nat, k: nat, r: State)
    requires Base(s) && t < NR_LOGS && k < s.v.segs && !IsCur(s.logs, k) && s.free.used[k]
    requires TypeMarks(s.marks, s.v.segs, s.sit.se[k].typ, k) && s.sit.se[k].ckptValid < s.v.blocksPerSeg
    requires r == ReuseLog(s, t, k)
    ensures Base(r) && MovedTo(s, r, t, k) && r.logs[t].blkoff < s.v.blocksPerSeg
  {
    ReuseBase(s, t, k);
    StripOk(s, k);
    forall j | 0 <= j < s.v.segs && j != k ensures SameSegment(s, r, j) {
    }
  }

  /** What InvBut says about a segment on a dirty list. */
  lemma MarkedSegment(s: State, lag: set<nat>, k: nat, d: nat)
    requires InvBut(s, lag) && k < s.v.segs && d < NR_LOGS && s.marks.maps[d][k]
    ensures s.sit.se[k].typ == d && !IsCur(s.logs, k) && s.free.used[k]
    ensures TypeMarks(s.marks, s.v.segs, d, k)
  {
    assert SegOk(s, k) || Pending(s, k);
  }

  lemma {:induction false} ReuseOk(s: State, lag: set<nat>, t: nat, k: nat, d: nat)
    requires InvBut(s, lag) && t < NR_LOGS && k < s.v.segs && d < NR_LOGS && s.marks.maps[d][k]
    requires s.sit.se[k].ckptValid < s.v.blocksPerSeg
    ensures s.sit.se[k].typ == d
    ensures InvBut(ReuseLog(s, t, k), lag + {s.logs[t].segno})
    ensures ReuseLog(s, t, k).logs[t].blkoff < s.v.blocksPerSeg
  {
    MarkedSegment(s, lag, k, d);
    ReuseMoves(s, t, k, ReuseLog(s, t, k));
    MovedToOk(s, ReuseLog(s, t, k), lag, t, k);
  }
}
