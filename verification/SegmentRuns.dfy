/** Whole operations of the segment manager, whole runs of them, and what every run keeps. */
module SegmentRuns {
  import opened Bitmaps
  import opened Geometry
  import opened FreeSegmap
  import opened DirtySeglist
  import opened SitInfo
  import opened SegmentState

  // ----- allocation -----

  ghost predicate OldOk(s: State, prev: OldBlock)
    requires Base(s)
  {
    prev.OldBlock? ==> IsValidBlock(s, prev.b)
  }

  lemma TakeKeepsOld(s: State, t: nat, b: Block)
    requires Inv(s) && t < NR_LOGS && IsValidBlock(s, b)
    ensures InvBut(TakeBlock(s, t), {}) && IsValidBlock(TakeBlock(s, t), b)
  {
    TakeKeeps(s, t);
  }

  function Lag(prev: OldBlock): set<nat> {
    if prev.OldBlock? then {prev.b.seg} else {}
  }

  /** The state in which the allocation policy is consulted: sit entries are already updated. */
  ghost function Mid(s: State, t: nat, prev: OldBlock): (r: State)
    requires Inv(s) && t < NR_LOGS && OldOk(s, prev)
    ensures InvBut(r, Lag(prev))
  {
    TakeKeeps(s, t);
    if prev.OldBlock? then
      TakeKeepsOld(s, t, prev.b);
      DropKeeps(TakeBlock(s, t), prev.b);
      DropBlock(TakeBlock(s, t), prev.b)
    else TakeBlock(s, t)
  }

  lemma KeepOk(s: State, lag: set<nat>, t: nat)
    requires InvBut(s, lag) && t < NR_LOGS
    ensures s.logs[t].segno < s.v.segs && InvBut(s, lag + {s.logs[t].segno})
  {
    var o := s.logs[t].segno;
    assert IsCur(s.logs, o) && LogOk(s.v, s.sit.se, s.logs[t], t);
    assert SegOk(s, o) || Pending(s, o);
  }

  lemma SwitchOk(s: State, lag: set<nat>, t: nat, c: Choice)
    requires InvBut(s, lag) && t < NR_LOGS && Legal(s, t, c)
    ensures s.logs[t].segno < s.v.segs && InvBut(Switch(s, t, c), lag + {s.logs[t].segno})
    ensures Switch(s, t, c).logs[t].blkoff < s.v.blocksPerSeg && Switch(s, t, c).v == s.v
  {
    KeepOk(s, lag, t);
    match c
    case Keep =>
    case Open(k) => OpenOk(s, lag, t, k);
    case Reuse(k) =>
      var d :| 0 <= d < NR_LOGS && SsrSource(t, d) && s.marks.maps[d][k];
      ReuseOk(s, lag, t, k, d);
  }

  /** Whatever legal choice the policy makes, only the segment just left is still to be located. */
  ghost function Moved(s: State, lag: set<nat>, t: nat, c: Choice): (r: State)
    requires InvBut(s, lag) && t < NR_LOGS && Legal(s, t, c)
    ensures s.logs[t].segno < s.v.segs && InvBut(r, lag + {s.logs[t].segno})
    ensures r.logs[t].blkoff < s.v.blocksPerSeg && r.v == s.v
  {
    SwitchOk(s, lag, t, c);
    Switch(s, t, c)
  }

  /** locate_dirty_segment on a segment whose marks may lag. */
  ghost function Located(s: State, lag: set<nat>, k: nat): (r: State)
    requires InvBut(s, lag) && k < s.v.segs && (k in lag || (SegOk(s, k) && s.free.used[k]))
    ensures InvBut(r, lag - {k})
    ensures SameBut(s, r, k)
  {
    LocateOk(s, k, lag);
    LocateFrame(s, k);
    Locate(s, k)
  }

  /** locate_dirty_segment for the segment the log left, then for the segment of the old block. */
  ghost function BothLocated(s: State, left: nat, prev: OldBlock): (r: State)
    requires InvBut(s, Lag(prev) + {left}) && left < s.v.segs && (prev.OldBlock? ==> prev.b.seg < s.v.segs)
    ensures InvBut(r, {})
    ensures r.sit == s.sit && r.free == s.free && r.logs == s.logs && r.v == s.v
  {
    var lag := Lag(prev) + {left};
    assert Pending(s, left);
    var moved := Located(s, lag, left);
    if prev.OldBlock? then
      assert (lag - {left}) - {prev.b.seg} == {};
      Located(moved, lag - {left}, prev.b.seg)
    else
      assert lag - {left} == {};
      moved
  }

  /** allocate_data_block: the new state; the block returned is NextBlock(s, t). */
  ghost function Allocate(s: State, t: nat, prev: OldBlock, c: Choice): (r: State)
    requires Inv(s) && t < NR_LOGS && OldOk(s, prev) && Legal(Mid(s, t, prev), t, c)
  {
    var m := Mid(s, t, prev);
    BothLocated(Moved(m, Lag(prev), t, c), m.logs[t].segno, prev)
  }

  lemma MidLogs(s: State, t: nat, prev: OldBlock)
    requires Inv(s) && t < NR_LOGS && OldOk(s, prev)
    ensures var m := Mid(s, t, prev); m.v == s.v && m.free == s.free && m.marks == s.marks
    ensures forall i :: 0 <= i < NR_LOGS && i != t ==> Mid(s, t, prev).logs[i] == s.logs[i]
  {
  }

  lemma MovedLogsKept(m: State, lag: set<nat>, t: nat, c: Choice)
    requires InvBut(m, lag) && t < NR_LOGS && Legal(m, t, c)
    ensures forall i :: 0 <= i < NR_LOGS && i != t ==> Moved(m, lag, t, c).logs[i] == m.logs[i]
  {
  }

  /** Allocation keeps the invariant, whatever the policy chooses. */
  lemma AllocateKeeps(s: State, t: nat, prev: OldBlock, c: Choice)
    requires Inv(s) && t < NR_LOGS && OldOk(s, prev) && Legal(Mid(s, t, prev), t, c)
    ensures Inv(Allocate(s, t, prev, c)) && Allocate(s, t, prev, c).v == s.v
  {
    MidLogs(s, t, prev);
    MovedLogsKept(Mid(s, t, prev), Lag(prev), t, c);
  }

  lemma AllocateSit(s: State, t: nat, prev: OldBlock, c: Choice)
    requires Inv(s) && t < NR_LOGS && OldOk(s, prev) && Legal(Mid(s, t, prev), t, c)
    ensures Allocate(s, t, prev, c).sit == Moved(Mid(s, t, prev), Lag(prev), t, c).sit
    ensures Allocate(s, t, prev, c).free == Moved(Mid(s, t, prev), Lag(prev), t, c).free
    ensures Allocate(s, t, prev, c).logs == Moved(Mid(s, t, prev), Lag(prev), t, c).logs
  {
  }

  /** Moving a log changes no validity map and takes no segment out of use. */
  lemma SwitchMaps(m: State, t: nat, c: Choice, k: nat)
    requires Base(m) && t < NR_LOGS && Legal(m, t, c) && k < m.v.segs
    ensures var e := Switch(m, t, c).sit.se[k];
      e.cur == m.sit.se[k].cur && e.ckpt == m.sit.se[k].ckpt && e.valid == m.sit.se[k].valid
    ensures |Switch(m, t, c).free.used| == m.v.segs && (m.free.used[k] ==> Switch(m, t, c).free.used[k])
  {
  }

  lemma MovedMaps(m: State, lag: set<nat>, t: nat, c: Choice, k: nat)
    requires InvBut(m, lag) && t < NR_LOGS && Legal(m, t, c) && k < m.v.segs
    ensures var e := Moved(m, lag, t, c).sit.se[k];
      e.cur == m.sit.se[k].cur && e.ckpt == m.sit.se[k].ckpt && e.valid == m.sit.se[k].valid
  {
    SwitchMaps(m, t, c, k);
  }

  lemma UpdateMaps(s: State, b: Block, on: bool, k: nat)
    requires Base(s) && InMain(s.v, b) && k < s.v.segs
    ensures var e := UpdateSit(s.v, s.sit, b, on).se[k];
      && e.ckpt == s.sit.se[k].ckpt && e.typ == s.sit.se[k].typ
      && |e.cur| == |s.sit.se[k].cur| == s.v.blocksPerSeg
      && forall o: nat :: o < s.v.blocksPerSeg ==> e.cur[o] == (if Block(k, o) == b then on else s.sit.se[k].cur[o])
  {
    assert EntryOk(s.sit.se[k], s.v.blocksPerSeg);
  }

  /** Which blocks an operation makes valid or invalid; what the last checkpoint refers to stays. */
  ghost predicate Changes(s: State, r: State, added: set<Block>, removed: set<Block>)
    requires Base(s) && Base(r)
  {
    && r.v == s.v
    && (forall b: Block :: InMain(s.v, b) ==> (IsValidBlock(r, b) <==> b in added || (IsValidBlock(s, b) && b !in removed)))
    && (forall k :: 0 <= k < s.v.segs ==> r.sit.se[k].ckpt == s.sit.se[k].ckpt)
  }

  function Replaced(prev: OldBlock): set<Block> {
    if prev.OldBlock? then {prev.b} else {}
  }

  /** The same changes, seen on the entry of segment k. */
  ghost predicate EntryChanges(s: State, r: State, added: set<Block>, removed: set<Block>, k: nat)
    requires k < s.v.segs == |s.sit.se| == |r.sit.se|
  {
    && r.sit.se[k].ckpt == s.sit.se[k].ckpt
    && |r.sit.se[k].cur| == s.v.blocksPerSeg == |s.sit.se[k].cur|
    && forall o: nat :: o < s.v.blocksPerSeg ==>
        (r.sit.se[k].cur[o] <==> Block(k, o) in added || (s.sit.se[k].cur[o] && Block(k, o) !in removed))
  }

  lemma ChangesByEntry(s: State, r: State, added: set<Block>, removed: set<Block>)
    requires Base(s) && Base(r) && r.v == s.v
    requires forall k: nat :: k < s.v.segs ==> EntryChanges(s, r, added, removed, k)
    ensures Changes(s, r, added, removed)
  {
    forall b: Block | InMain(s.v, b)
      ensures IsValidBlock(r, b) <==> b in added || (IsValidBlock(s, b) && b !in removed)
    {
      assert EntryChanges(s, r, added, removed, b.seg) && b == Block(b.seg, b.off);
    }
    forall k: nat | k < s.v.segs ensures r.sit.se[k].ckpt == s.sit.se[k].ckpt {
      assert EntryChanges(s, r, added, removed, k);
    }
  }

  lemma MidMaps(s: State, t: nat, prev: OldBlock, m: State, k: nat)
    requires Inv(s) && t < NR_LOGS && OldOk(s, prev) && k < s.v.segs && m == Mid(s, t, prev)
    ensures |m.sit.se| == s.v.segs && EntryChanges(s, m, {NextBlock(s, t)}, Replaced(prev), k)
  {
    NextBlockIsHole(s, t);
    UpdateMaps(s, NextBlock(s, t), true, k);
    if prev.OldBlock? {
      TakeKeepsOld(s, t, prev.b);
      UpdateMaps(TakeBlock(s, t), prev.b, false, k);
    }
  }

  lemma AllocateEntry(s: State, t: nat, prev: OldBlock, c: Choice, r: State, k: nat)
    requires Inv(s) && t < NR_LOGS && OldOk(s, prev) && Legal(Mid(s, t, prev), t, c) && r == Allocate(s, t, prev, c)
    requires k < s.v.segs == |r.sit.se|
    ensures EntryChanges(s, r, {NextBlock(s, t)}, Replaced(prev), k)
  {
    AllocateSit(s, t, prev, c);
    MovedMaps(Mid(s, t, prev), Lag(prev), t, c, k);
    MidMaps(s, t, prev, Mid(s, t, prev), k);
  }

  lemma AllocateChanges(s: State, t: nat, prev: OldBlock, c: Choice, r: State)
    requires Inv(s) && t < NR_LOGS && OldOk(s, prev) && Legal(Mid(s, t, prev), t, c) && r == Allocate(s, t, prev, c)
    requires Base(r) && r.v == s.v
    ensures Changes(s, r, {NextBlock(s, t)}, Replaced(prev))
  {
    forall k: nat | k < s.v.segs ensures EntryChanges(s, r, {NextBlock(s, t)}, Replaced(prev), k) {
      AllocateEntry(s, t, prev, c, r, k);
    }
    ChangesByEntry(s, r, {NextBlock(s, t)}, Replaced(prev));
  }

  /** The block handed out was valid neither now nor in the last checkpoint; it becomes valid, and the old one invalid. */
  lemma AllocatedIsFresh(s: State, t: nat, prev: OldBlock, c: Choice, r: State)
    requires Inv(s) && t < NR_LOGS && OldOk(s, prev) && Legal(Mid(s, t, prev), t, c) && r == Allocate(s, t, prev, c)
    ensures InMain(s.v, NextBlock(s, t)) && Hole(s.sit.se[NextBlock(s, t).seg], NextBlock(s, t).off)
    ensures Inv(r) && Changes(s, r, {NextBlock(s, t)}, Replaced(prev))
  {
    NextBlockIsHole(s, t);
    AllocateKeeps(s, t, prev, c);
    AllocateChanges(s, t, prev, c, r);
  }

  // ----- invalidation -----

  /** invalidate_blocks on a main-area address; NEW_ADDR is a no-op in the code. */
  ghost function Invalidate(s: State, b: Block): (r: State)
    requires Inv(s) && IsValidBlock(s, b)
    ensures Inv(r) && r.v == s.v && r.logs == s.logs && r.free == s.free
  {
    DropKeeps(s, b);
    assert {b.seg} - {b.seg} == {};
    Located(DropBlock(s, b), {b.seg}, b.seg)
  }

  lemma InvalidateMaps(s: State, b: Block)
    requires Inv(s) && IsValidBlock(s, b)
    ensures forall x: Block :: InMain(s.v, x) ==>
      (IsValidBlock(Invalidate(s, b), x) <==> IsValidBlock(s, x) && x != b)
    ensures forall k :: 0 <= k < s.v.segs ==> Invalidate(s, b).sit.se[k].ckpt == s.sit.se[k].ckpt
  {
    forall k: nat | k < s.v.segs ensures Invalidate(s, b).sit.se[k].ckpt == s.sit.se[k].ckpt {
      UpdateMaps(s, b, false, k);
    }
    forall x: Block | InMain(s.v, x) ensures IsValidBlock(Invalidate(s, b), x) <==> IsValidBlock(s, x) && x != b {
      UpdateMaps(s, b, false, x.seg);
    }
  }

  // ----- checkpoint -----

  /** set_prefree_as_free_segments over the segments below n. */
  ghost function FreePre(v: Volume, f: FreeMap, pre: seq<bool>, n: nat): (r: FreeMap)
    requires v.Valid() && FreeOk(v, f) && |pre| == v.segs && n <= v.segs
    ensures FreeOk(v, r)
    ensures forall k :: 0 <= k < v.segs ==> r.used[k] == (f.used[k] && !(k < n && pre[k]))
  {
    if n == 0 then f else
    var g := FreePre(v, f, pre, n - 1);
    if pre[n - 1] then Freed(v, g, n - 1) else g
  }

  lemma FreePreStep(v: Volume, f: FreeMap, pre: seq<bool>, n: nat)
    requires v.Valid() && FreeOk(v, f) && |pre| == v.segs && n < v.segs
    ensures FreePre(v, f, pre, n + 1) ==
      if pre[n] then SetFree(v, FreePre(v, f, pre, n), n) else FreePre(v, f, pre, n)
  {
  }

  /** flush_sit_entries, set_prefree_as_free_segments, clear_prefree_segments. */
  ghost function Checkpoint(s: State): (r: State)
    requires Inv(s)
  {
    State(s.v, Flush(s.sit), FreePre(s.v, s.free, s.marks.maps[PRE], s.v.segs),
          ClearPre(s.marks, s.v.segs), s.victimSec, s.logs)
  }

  lemma FlushLog(s: State, t: nat)
    requires Inv(s) && t < NR_LOGS
    ensures LogOk(s.v, Flush(s.sit).se, s.logs[t], t)
  {
    FlushOk(s.v, s.sit);
    var log := s.logs[t];
    assert LogOk(s.v, s.sit.se, log, t);
    if !log.ssr {
      forall o | log.blkoff <= o < s.v.blocksPerSeg ensures Hole(Flush(s.sit).se[log.segno], o) {
        assert Hole(s.sit.se[log.segno], o);
      }
    }
  }

  lemma CheckpointBase(s: State)
    requires Inv(s)
    ensures Base(Checkpoint(s))
  {
    FlushOk(s.v, s.sit);
    ClearPreOk(s.marks, s.v.segs);
    forall t | 0 <= t < NR_LOGS ensures LogOk(s.v, Flush(s.sit).se, s.logs[t], t) {
      FlushLog(s, t);
    }
  }

  /** What a checkpoint does to one segment: its entry is flushed, and if it was prefree it is free now. */
  ghost predicate Flushed(s: State, r: State, k: nat)
    requires Base(s) && Base(r) && r.v == s.v && k < s.v.segs
  {
    && r.logs == s.logs
    && r.sit.se[k].typ == s.sit.se[k].typ && r.sit.se[k].valid == s.sit.se[k].valid
    && r.sit.se[k].cur == s.sit.se[k].cur && r.sit.se[k].ckpt == s.sit.se[k].cur
    && r.free.used[k] == (s.free.used[k] && !s.marks.maps[PRE][k])
    && forall t :: 0 <= t < NR_DIRTY ==> r.marks.maps[t][k] == (s.marks.maps[t][k] && t != PRE)
  }

  lemma CheckpointFlushes(s: State, k: nat)
    requires Inv(s) && Base(Checkpoint(s)) && k < s.v.segs
    ensures Flushed(s, Checkpoint(s), k)
  {
    FlushOk(s.v, s.sit);
    ClearPreOk(s.marks, s.v.segs);
  }

  lemma FlushedSeg(s: State, r: State, k: nat)
    requires Base(s) && Base(r) && r.v == s.v && k < s.v.segs && SegOk(s, k) && Flushed(s, r, k)
    ensures SegOk(r, k)
  {
    assert EntryOk(s.sit.se[k], s.v.blocksPerSeg);
    OnesZero(s.sit.se[k].cur);
  }

  lemma CheckpointSeg(s: State, k: nat)
    requires Inv(s) && Base(Checkpoint(s)) && k < s.v.segs
    ensures SegOk(Checkpoint(s), k)
  {
    assert SegOk(s, k);
    CheckpointFlushes(s, k);
    FlushedSeg(s, Checkpoint(s), k);
  }

  /** After a checkpoint the checkpointed maps are the current maps and nothing is prefree. */
  lemma CheckpointKeeps(s: State)
    requires Inv(s)
    ensures Inv(Checkpoint(s))
    ensures forall k :: 0 <= k < s.v.segs ==>
      Checkpoint(s).sit.se[k].cur == s.sit.se[k].cur && Checkpoint(s).sit.se[k].ckpt == s.sit.se[k].cur
    ensures forall k :: 0 <= k < s.v.segs ==> !Checkpoint(s).marks.maps[PRE][k]
  {
    CheckpointBase(s);
    FlushOk(s.v, s.sit);
    ClearPreOk(s.marks, s.v.segs);
    forall k: nat | k < s.v.segs ensures SegOk(Checkpoint(s), k) { CheckpointSeg(s, k); }
  }

  // ----- what the invariant says about one segment and about the counters -----

  datatype Class = Current | Free | Prefree | Dirty | Full

  ghost predicate InClass(s: State, k: nat, c: Class)
    requires Base(s) && k < s.v.segs
  {
    match c
    case Current => IsCur(s.logs, k)
    case Free => !s.free.used[k]
    case Prefree => s.marks.maps[PRE][k]
    case Dirty => s.marks.maps[DIRTY][k]
    case Full => !IsCur(s.logs, k) && s.sit.se[k].valid == s.v.blocksPerSeg
  }

  /** Every segment is in exactly one class, and the class fits the number of valid blocks. */
  lemma ExactlyOneClass(s: State, k: nat)
    requires Inv(s) && k < s.v.segs
    ensures exists c :: InClass(s, k, c) && forall d :: InClass(s, k, d) ==> d == c
    ensures InClass(s, k, Free) || InClass(s, k, Prefree) ==> s.sit.se[k].valid == 0
    ensures InClass(s, k, Dirty) ==> 0 < s.sit.se[k].valid < s.v.blocksPerSeg
  {
    assert SegOk(s, k) && EntryOk(s.sit.se[k], s.v.blocksPerSeg);
    OnesZero(s.sit.se[k].cur);
    var c := if IsCur(s.logs, k) then Current else if !s.free.used[k] then Free
             else if s.marks.maps[PRE][k] then Prefree else if s.marks.maps[DIRTY][k] then Dirty else Full;
    assert InClass(s, k, c);
  }

  /** All counters equal the bitmaps they summarise, and the typed dirty counters add up. */
  lemma CountersMatch(s: State)
    requires Inv(s)
    ensures s.free.freeSegs == s.v.segs - Ones(s.free.used) && s.free.freeSecs == s.v.Secs() - Ones(s.free.secUsed)
    ensures forall t :: 0 <= t < NR_DIRTY ==> s.marks.nr[t] == Ones(s.marks.maps[t])
    ensures s.marks.nr[DIRTY] == s.marks.nr[0] + s.marks.nr[1] + s.marks.nr[2]
      + s.marks.nr[3] + s.marks.nr[4] + s.marks.nr[5]
    ensures s.sit.written == SumValid(s.sit.se, 0, s.v.segs) + s.v.carried
  {
    var typ := seq(s.v.segs, k requires 0 <= k < s.v.segs => s.sit.se[k].typ);
    forall k | 0 <= k < s.v.segs ensures typ[k] < NR_LOGS && TypeMarks(s.marks, s.v.segs, typ[k], k) {
      assert EntryOk(s.sit.se[k], s.v.blocksPerSeg) && SegOk(s, k);
    }
    TypedCountersAddUp(s.marks, s.v.segs, typ);
  }

  // ----- runs -----

  datatype Op = Alloc(t: nat, prev: OldBlock, c: Choice) | Drop(b: Block) | Commit

  ghost predicate Enabled(s: State, op: Op)
    requires Inv(s)
  {
    match op
    case Alloc(t, prev, c) => t < NR_LOGS && OldOk(s, prev) && Legal(Mid(s, t, prev), t, c)
    case Drop(b) => IsValidBlock(s, b)
    case Commit => true
  }

  ghost function Apply(s: State, op: Op): (r: State)
    requires Inv(s) && Enabled(s, op)
    ensures Inv(r) && r.v == s.v
  {
    match op
    case Alloc(t, prev, c) => AllocateKeeps(s, t, prev, c); Allocate(s, t, prev, c)
    case Drop(b) => Invalidate(s, b)
    case Commit => CheckpointKeeps(s); Checkpoint(s)
  }

  /** The reference: which blocks are live, and which the last checkpoint still refers to. */
  datatype Ledger = Ledger(live: set<Block>, durable: set<Block>)

  function Post(s: State, g: Ledger, op: Op): Ledger
    requires op.Alloc? ==> op.t < |s.logs|
  {
    match op
    case Alloc(t, prev, _) =>
      g.(live := (if prev.OldBlock? then g.live - {prev.b} else g.live) + {NextBlock(s, t)})
    case Drop(b) => g.(live := g.live - {b})
    case Commit => g.(durable := g.live)
  }

  ghost predicate Agrees(s: State, g: Ledger)
    requires Base(s)
  {
    forall b: Block :: InMain(s.v, b) ==>
      (b in g.live <==> IsValidBlock(s, b)) && (b in g.durable <==> WasValid(s, b))
  }

  ghost predicate WasValid(s: State, b: Block)
    requires Base(s)
  {
    InMain(s.v, b) && b.off < |s.sit.se[b.seg].ckpt| && s.sit.se[b.seg].ckpt[b.off]
  }

  lemma ChangesAgree(s: State, r: State, g: Ledger, added: set<Block>, removed: set<Block>)
    requires Base(s) && Base(r) && Changes(s, r, added, removed) && Agrees(s, g)
    ensures Agrees(r, g.(live := g.live - removed + added))
  {
    forall b: Block | InMain(s.v, b) ensures WasValid(r, b) <==> WasValid(s, b) {
    }
  }

  lemma HoleIsFree(s: State, g: Ledger, b: Block)
    requires Base(s) && Agrees(s, g) && InMain(s.v, b) && Hole(s.sit.se[b.seg], b.off)
    ensures b !in g.live + g.durable
  {
    assert b in g.live <==> IsValidBlock(s, b);
  }

  lemma AllocAgrees(s: State, g: Ledger, t: nat, prev: OldBlock, c: Choice, r: State)
    requires Inv(s) && t < NR_LOGS && OldOk(s, prev) && Legal(Mid(s, t, prev), t, c) && Agrees(s, g)
    requires r == Allocate(s, t, prev, c)
    ensures Inv(r) && Agrees(r, Post(s, g, Alloc(t, prev, c)))
    ensures NextBlock(s, t) !in g.live + g.durable && InMain(s.v, NextBlock(s, t))
  {
    AllocatedIsFresh(s, t, prev, c, r);
    ChangesAgree(s, r, g, {NextBlock(s, t)}, Replaced(prev));
    HoleIsFree(s, g, NextBlock(s, t));
    assert Post(s, g, Alloc(t, prev, c)).live == g.live - Replaced(prev) + {NextBlock(s, t)};
  }

  lemma DropAgrees(s: State, g: Ledger, b: Block)
    requires Inv(s) && IsValidBlock(s, b) && Agrees(s, g)
    ensures Agrees(Invalidate(s, b), Post(s, g, Drop(b)))
  {
    var r := Invalidate(s, b);
    InvalidateMaps(s, b);
    ChangesAgree(s, r, g, {}, {b});
    assert Post(s, g, Drop(b)).live == g.live - {b} + {};
  }

  lemma CommitAgrees(s: State, g: Ledger)
    requires Inv(s) && Agrees(s, g)
    ensures Inv(Checkpoint(s)) && Agrees(Checkpoint(s), Post(s, g, Commit))
  {
    CheckpointKeeps(s);
    var r, h := Checkpoint(s), Post(s, g, Commit);
    forall b: Block | InMain(s.v, b)
      ensures (b in h.live <==> IsValidBlock(r, b)) && (b in h.durable <==> WasValid(r, b))
    {
      assert b in g.live <==> IsValidBlock(s, b);
      assert EntryOk(s.sit.se[b.seg], s.v.blocksPerSeg);
    }
  }

  lemma StepAgrees(s: State, g: Ledger, op: Op)
    requires Inv(s) && Enabled(s, op) && Agrees(s, g)
    ensures Agrees(Apply(s, op), Post(s, g, op))
    ensures op.Alloc? ==> NextBlock(s, op.t) !in g.live + g.durable
  {
    match op
    case Alloc(t, prev, c) => AllocAgrees(s, g, t, prev, c, Apply(s, op));
    case Drop(b) => DropAgrees(s, g, b);
    case Commit => CommitAgrees(s, g);
  }

  /** No two logs share a segment, and every log has a block to announce. */
  ghost predicate LogsSound(s: State) {
    |s.logs| == NR_LOGS && Distinct(s.logs) && forall t :: 0 <= t < NR_LOGS ==> s.logs[t].blkoff < s.v.blocksPerSeg
  }

  /** A run is safe when its logs stay sound and no allocation hits a live block or one the last checkpoint needs. */
  ghost predicate SafeRun(s: State, g: Ledger, ops: seq<Op>)
    requires Inv(s)
    decreases |ops|
  {
    LogsSound(s) && (ops != [] && Enabled(s, ops[0]) ==>
      && (ops[0].Alloc? ==> NextBlock(s, ops[0].t) !in g.live + g.durable)
      && Agrees(Apply(s, ops[0]), Post(s, g, ops[0]))
      && SafeRun(Apply(s, ops[0]), Post(s, g, ops[0]), ops[1..]))
  }

  /** In every run of allocations, invalidations and checkpoints, from any good state. */
  lemma {:induction false} EveryRunIsSafe(s: State, g: Ledger, ops: seq<Op>)
    requires Inv(s) && Agrees(s, g)
    ensures SafeRun(s, g, ops)
    decreases |ops|
  {
    if ops != [] && Enabled(s, ops[0]) {
      StepAgrees(s, g, ops[0]);
      EveryRunIsSafe(Apply(s, ops[0]), Post(s, g, ops[0]), ops[1..]);
    }
  }

  // ----- what one allocation leaves alone -----

  lemma AllocateLogs(s: State, t: nat, prev: OldBlock, c: Choice)
    requires Inv(s) && t < NR_LOGS && OldOk(s, prev) && Legal(Mid(s, t, prev), t, c)
    ensures |Allocate(s, t, prev, c).logs| == NR_LOGS
    ensures forall i :: 0 <= i < NR_LOGS && i != t ==> Allocate(s, t, prev, c).logs[i] == s.logs[i]
    ensures c == Keep ==> Allocate(s, t, prev, c).logs[t] == s.logs[t].(blkoff := NextOff(s, t))
    ensures !c.Keep? ==> Allocate(s, t, prev, c).logs[t].segno == c.seg
    ensures !c.Keep? ==> Allocate(s, t, prev, c).logs[t].ssr == c.Reuse?
  {
    MidLogs(s, t, prev);
    MovedLogsKept(Mid(s, t, prev), Lag(prev), t, c);
  }

  lemma MovedUsed(m: State, lag: set<nat>, t: nat, c: Choice)
    requires InvBut(m, lag) && t < NR_LOGS && Legal(m, t, c)
    ensures |Moved(m, lag, t, c).free.used| == m.v.segs
    ensures forall k :: 0 <= k < m.v.segs && m.free.used[k] ==> Moved(m, lag, t, c).free.used[k]
  {
    forall k: nat | k < m.v.segs
      ensures |Switch(m, t, c).free.used| == m.v.segs && (m.free.used[k] ==> Switch(m, t, c).free.used[k])
    {
      SwitchMaps(m, t, c, k);
    }
  }

  lemma AllocateUsed(s: State, t: nat, prev: OldBlock, c: Choice)
    requires Inv(s) && t < NR_LOGS && OldOk(s, prev) && Legal(Mid(s, t, prev), t, c)
    ensures |Allocate(s, t, prev, c).free.used| == s.v.segs
    ensures forall k :: 0 <= k < s.v.segs && s.free.used[k] ==> Allocate(s, t, prev, c).free.used[k]
    ensures c.Open? ==> c.seg < s.v.segs && !s.free.used[c.seg]
  {
    AllocateSit(s, t, prev, c);
    MidLogs(s, t, prev);
    MovedUsed(Mid(s, t, prev), Lag(prev), t, c);
  }

  lemma MidTyp(s: State, t: nat, prev: OldBlock, k: nat)
    requires Inv(s) && t < NR_LOGS && OldOk(s, prev) && k < s.v.segs
    ensures Mid(s, t, prev).sit.se[k].typ == s.sit.se[k].typ
  {
    NextBlockIsHole(s, t);
    UpdateMaps(s, NextBlock(s, t), true, k);
    if prev.OldBlock? {
      TakeKeepsOld(s, t, prev.b);
      UpdateMaps(TakeBlock(s, t), prev.b, false, k);
    }
  }

  /** A segment changes type only when it was free or was taken as a victim from its own list. */
  lemma AllocateTyp(s: State, t: nat, prev: OldBlock, c: Choice, k: nat)
    requires Inv(s) && t < NR_LOGS && OldOk(s, prev) && Legal(Mid(s, t, prev), t, c) && k < s.v.segs
    ensures (c.Keep? || k != c.seg) ==> Allocate(s, t, prev, c).sit.se[k].typ == s.sit.se[k].typ
    ensures c.Reuse? ==> c.seg < s.v.segs && SsrSource(t, s.sit.se[c.seg].typ) && t != WARM_NODE
  {
    AllocateSit(s, t, prev, c);
    MidTyp(s, t, prev, k);
    if c.Reuse? {
      var m := Mid(s, t, prev);
      MidTyp(s, t, prev, c.seg);
      var d :| 0 <= d < NR_LOGS && SsrSource(t, d) && m.marks.maps[d][c.seg];
      ReuseOk(m, Lag(prev), t, c.seg, d);
    }
  }

  /** The log never moves back onto the segment it just left, nor onto any current segment. */
  lemma ChoiceIsNew(s: State, t: nat, prev: OldBlock, c: Choice)
    requires Inv(s) && t < NR_LOGS && OldOk(s, prev) && Legal(Mid(s, t, prev), t, c) && !c.Keep?
    ensures c.seg < s.v.segs && !IsCur(s.logs, c.seg)
  {
    var m := Mid(s, t, prev);
    MidLogs(s, t, prev);
    CurUnchanged(s.logs, m.logs, c.seg);
    assert SegOk(m, c.seg) || Pending(m, c.seg);
  }
}
