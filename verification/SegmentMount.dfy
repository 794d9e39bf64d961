/** build_segment_manager: the in-memory state rebuilt from a checkpoint image. */
module SegmentMount {
  import opened Bitmaps
  import opened Geometry
  import opened FreeSegmap
  import opened DirtySeglist
  import opened SitInfo
  import opened SegmentState
  import opened SegmentRuns

  /** A segment as stored: its validity map and its type.  A log as stored: segment, offset, mode. */
  datatype RawSit = RawSit(bits: seq<bool>, typ: nat)
  datatype RawLog = RawLog(segno: nat, blkoff: nat, ssr: bool)
  datatype Image = Image(sit: seq<RawSit>, logs: seq<RawLog>, validBlocks: int)

  /** seg_info_from_raw_sit. */
  function ReadEntry(r: RawSit): SegEntry {
    SegEntry(Ones(r.bits), r.bits, Ones(r.bits), r.bits, r.typ)
  }

  function ReadLog(v: Volume, l: RawLog): Log
    requires v.Valid()
  {
    Log(l.segno, l.blkoff, l.ssr, v.ZoneOf(l.segno))
  }

  function Entries(img: Image): (se: seq<SegEntry>)
    ensures |se| == |img.sit|
  {
    seq(|img.sit|, k requires 0 <= k < |img.sit| => ReadEntry(img.sit[k]))
  }

  function Logs(v: Volume, img: Image): (l: seq<Log>)
    requires v.Valid()
    ensures |l| == |img.logs|
  {
    seq(|img.logs|, t requires 0 <= t < |img.logs| => ReadLog(v, img.logs[t]))
  }

  /** What a checkpoint image must satisfy; ImageOfCheckpoint shows that every checkpoint does. */
  ghost predicate ImageOk(v: Volume, img: Image) {
    && v.Valid() && |img.sit| == v.segs && |img.logs| == NR_LOGS
    && (forall k :: 0 <= k < v.segs ==> |img.sit[k].bits| == v.blocksPerSeg && img.sit[k].typ < NR_LOGS)
    && Distinct(Logs(v, img))
    && (forall t :: 0 <= t < NR_LOGS ==>
          LogOk(v, Entries(img), Logs(v, img)[t], t) && img.logs[t].blkoff < v.blocksPerSeg)
    && img.validBlocks == SumValid(Entries(img), 0, v.segs) + v.carried
  }

  /** init_free_segmap, first loop: __set_free for every empty segment below n. */
  function FreeEmpty(v: Volume, se: seq<SegEntry>, n: nat): (f: FreeMap)
    requires v.Valid() && |se| == v.segs && n <= v.segs
    ensures FreeOk(v, f)
    ensures forall k :: 0 <= k < v.segs ==> (f.used[k] <==> !(k < n && se[k].valid == 0))
  {
    if n == 0 then AllUsed(v) else
      var f := FreeEmpty(v, se, n - 1);
      if se[n - 1].valid == 0 then Freed(v, f, n - 1) else f
  }

  /** memset(0xff): every segment and section in use, nothing free. */
  function AllUsed(v: Volume): (f: FreeMap)
    requires v.Valid()
    ensures FreeOk(v, f) && forall k :: 0 <= k < v.segs ==> f.used[k]
  {
    AllBusy(v, seq(v.segs, _ => true));
    OnesFull(seq(v.segs, _ => true));
    OnesFull(seq(v.Secs(), _ => true));
    FreeMap(seq(v.segs, _ => true), seq(v.Secs(), _ => true), 0, 0)
  }

  lemma AllBusy(v: Volume, used: seq<bool>)
    requires v.Valid() && |used| == v.segs && forall k :: 0 <= k < v.segs ==> used[k]
    ensures forall j :: 0 <= j < v.Secs() ==> SectionBusy(v, used, j)
  {
    forall j | 0 <= j < v.Secs() ensures SectionBusy(v, used, j) {
      SectionBound(v, j);
      var k := j * v.segsPerSec;
      SectionOf(v, k, j);
      assert used[k] && v.SecOf(k) == j;
    }
  }

  /** init_free_segmap, second loop: the log segments below n are in use. */
  function UseLogs(v: Volume, f: FreeMap, logs: seq<Log>, n: nat): (r: FreeMap)
    requires v.Valid() && FreeOk(v, f) && n <= |logs| && forall t :: 0 <= t < |logs| ==> logs[t].segno < v.segs
    ensures FreeOk(v, r)
    ensures forall k :: 0 <= k < v.segs ==> (r.used[k] <==> f.used[k] || IsCur(logs[..n], k))
  {
    if n == 0 then f else
    var g := UseLogs(v, f, logs, n - 1);
    CurPrefix(logs, n);
    Taken(v, g, logs[n - 1].segno)
  }

  lemma CurPrefix(logs: seq<Log>, n: nat)
    requires 0 < n <= |logs|
    ensures forall k: nat :: IsCur(logs[..n], k) <==> IsCur(logs[..n - 1], k) || logs[n - 1].segno == k
  {
    forall k: nat ensures IsCur(logs[..n], k) <==> IsCur(logs[..n - 1], k) || logs[n - 1].segno == k {
      if IsCur(logs[..n - 1], k) {
        var t :| 0 <= t < n - 1 && logs[..n - 1][t].segno == k;
        assert logs[..n][t].segno == k;
      }
      if logs[n - 1].segno == k { assert logs[..n][n - 1].segno == k; }
      if IsCur(logs[..n], k) && logs[n - 1].segno != k {
        var t :| 0 <= t < n && logs[..n][t].segno == k;
        assert logs[..n - 1][t].segno == k;
      }
    }
  }

  ghost predicate PartlyValid(v: Volume, e: SegEntry) {
    0 < e.valid < v.blocksPerSeg
  }

  /** A segment in use, partly valid, that no log writes to. */
  ghost predicate NeedsDirty(v: Volume, se: seq<SegEntry>, used: seq<bool>, logs: seq<Log>, k: nat)
    requires k < |se| == |used|
  {
    used[k] && PartlyValid(v, se[k]) && !IsCur(logs, k)
  }

  /** __locate_dirty_segment(DIRTY): the segment joins the dirty list and the list of its type. */
  ghost function WithDirty(m: Marks, segs: nat, typ: nat, k: nat): (r: Marks)
    requires MarksOk(m, segs) && typ < NR_LOGS && k < segs
    ensures MarksOk(r, segs)
    ensures forall d, j :: 0 <= d < NR_DIRTY && 0 <= j < segs ==>
      (r.maps[d][j] <==> m.maps[d][j] || (j == k && (d == DIRTY || d == typ)))
  {
    MarkOk(m, segs, DIRTY, k);
    MarkOk(Mark(m, segs, DIRTY, k), segs, typ, k);
    Mark(Mark(m, segs, DIRTY, k), segs, typ, k)
  }

  /** init_dirty_segmap over the segments below n. */
  ghost function MarkDirty(v: Volume, se: seq<SegEntry>, used: seq<bool>, logs: seq<Log>, n: nat): (m: Marks)
    requires |se| == v.segs && |used| == v.segs && n <= v.segs
    requires forall k :: 0 <= k < v.segs ==> se[k].typ < NR_LOGS
    ensures MarksOk(m, v.segs)
    ensures forall d, k :: 0 <= d < NR_DIRTY && 0 <= k < v.segs ==>
      (m.maps[d][k] <==> k < n && NeedsDirty(v, se, used, logs, k) && (d == DIRTY || d == se[k].typ))
  {
    if n == 0 then
      OnesZero(seq(v.segs, _ => false));
      Marks(seq(NR_DIRTY, _ => seq(v.segs, _ => false)), seq(NR_DIRTY, _ => 0))
    else
      var m := MarkDirty(v, se, used, logs, n - 1);
      var k := n - 1;
      if NeedsDirty(v, se, used, logs, k) then WithDirty(m, v.segs, se[k].typ, k) else m
  }

  /** build_sit_entries: section totals. */
  function SectionTotals(v: Volume, se: seq<SegEntry>): (t: seq<int>)
    requires v.Valid() && |se| == v.segs
  {
    seq(v.Secs(), j requires 0 <= j < v.Secs() =>
      SectionBound(v, j); SumValid(se, j * v.segsPerSec, j * v.segsPerSec + v.segsPerSec))
  }

  ghost function Mount(v: Volume, img: Image): (s: State)
    requires ImageOk(v, img)
  {
    var se, logs := Entries(img), Logs(v, img);
    LogsInRange(v, img);
    var free := UseLogs(v, FreeEmpty(v, se, v.segs), logs, NR_LOGS);
    State(v,
          Sit(se, seq(v.segs, _ => false), 0, img.validBlocks, SectionTotals(v, se)),
          free, MarkDirty(v, se, free.used, logs, v.segs), seq(v.Secs(), _ => false), logs)
  }

  lemma FreeEmptyStep(v: Volume, se: seq<SegEntry>, n: nat)
    requires v.Valid() && |se| == v.segs && n < v.segs
    ensures FreeEmpty(v, se, n + 1) ==
      if se[n].valid == 0 then SetFree(v, FreeEmpty(v, se, n), n) else FreeEmpty(v, se, n)
  {
  }

  lemma UseLogsStep(v: Volume, f: FreeMap, logs: seq<Log>, n: nat)
    requires v.Valid() && FreeOk(v, f) && n < |logs| && forall t :: 0 <= t < |logs| ==> logs[t].segno < v.segs
    ensures UseLogs(v, f, logs, n + 1) == SetInuse(v, UseLogs(v, f, logs, n), logs[n].segno)
  {
  }

  lemma MarkDirtyStep(v: Volume, se: seq<SegEntry>, used: seq<bool>, logs: seq<Log>, n: nat)
    requires |se| == v.segs && |used| == v.segs && n < v.segs
    requires forall k :: 0 <= k < v.segs ==> se[k].typ < NR_LOGS
    ensures var m := MarkDirty(v, se, used, logs, n);
      MarkDirty(v, se, used, logs, n + 1) ==
      if used[n] && PartlyValid(v, se[n]) && !IsCur(logs, n)
      then Mark(Mark(m, v.segs, DIRTY, n), v.segs, se[n].typ, n) else m
  {
  }

  lemma LogsInRange(v: Volume, img: Image)
    requires ImageOk(v, img)
    ensures forall t :: 0 <= t < NR_LOGS ==> Logs(v, img)[t].segno < v.segs
  {
    forall t | 0 <= t < NR_LOGS ensures Logs(v, img)[t].segno < v.segs {
      assert LogOk(v, Entries(img), Logs(v, img)[t], t);
    }
  }

  lemma TotalsOk(v: Volume, t: Sit)
    requires v.Valid() && |t.se| == v.segs && t.secValid == SectionTotals(v, t.se)
    ensures SectionSums(v, t)
  {
    forall j | 0 <= j < v.Secs() ensures SectionSum(v, t, j) {
      SectionBound(v, j);
    }
  }

  lemma MountSit(v: Volume, img: Image)
    requires ImageOk(v, img)
    ensures SitOk(v, Mount(v, img).sit)
  {
    var t := Mount(v, img).sit;
    OnesZero(t.dirty);
    TotalsOk(v, t);
    forall k | 0 <= k < v.segs ensures EntryOk(t.se[k], v.blocksPerSeg) {
      UnionSelf(t.se[k].cur);
    }
  }

  /** A segment with no valid block is free unless a log has it; one with some is dirty unless it is full. */
  lemma MountSeg(v: Volume, img: Image, s: State, k: nat)
    requires ImageOk(v, img) && s == Mount(v, img) && Base(s) && k < v.segs && s.logs[..NR_LOGS] == s.logs
    ensures SegOk(s, k)
  {
    assert EntryOk(s.sit.se[k], v.blocksPerSeg);
    OnesZero(s.sit.se[k].cur);
  }

  lemma MountBase(v: Volume, img: Image, s: State)
    requires ImageOk(v, img) && s == Mount(v, img)
    ensures Base(s) && s.logs[..NR_LOGS] == s.logs
    ensures forall t :: 0 <= t < NR_LOGS ==> s.logs[t].blkoff < v.blocksPerSeg
  {
    MountSit(v, img);
    LogsInRange(v, img);
    forall t | 0 <= t < NR_LOGS ensures s.logs[t].blkoff < v.blocksPerSeg {
      assert img.logs[t].blkoff < v.blocksPerSeg;
    }
  }

  /** A mounted image is a good state: live and durable blocks are those of the image. */
  lemma MountOk(v: Volume, img: Image)
    requires ImageOk(v, img)
    ensures Inv(Mount(v, img))
    ensures forall k :: 0 <= k < v.segs ==> Mount(v, img).sit.se[k].cur == Mount(v, img).sit.se[k].ckpt == img.sit[k].bits
  {
    var s := Mount(v, img);
    MountBase(v, img, s);
    forall k: nat | k < v.segs ensures SegOk(s, k) { MountSeg(v, img, s, k); }
  }

  /** What the checkpoint just taken leaves on disk. */
  ghost function ImageOf(s: State): Image
    requires Inv(s)
  {
    Image(seq(s.v.segs, k requires 0 <= k < s.v.segs => RawSit(s.sit.se[k].cur, s.sit.se[k].typ)),
          seq(NR_LOGS, t requires 0 <= t < NR_LOGS => RawLog(s.logs[t].segno, s.logs[t].blkoff, s.logs[t].ssr)),
          s.sit.written)
  }

  /** Any checkpoint can be mounted, and mounting it gives the very same live and durable blocks. */
  lemma CheckpointRemounts(s: State)
    requires Inv(s)
    ensures Inv(Checkpoint(s)) && ImageOk(s.v, ImageOf(Checkpoint(s)))
    ensures Inv(Mount(s.v, ImageOf(Checkpoint(s)))) && Mount(s.v, ImageOf(Checkpoint(s))).logs == s.logs
    ensures Mount(s.v, ImageOf(Checkpoint(s))).sit.se == Checkpoint(s).sit.se
  {
    CheckpointKeeps(s);
    var c := Checkpoint(s);
    var img := ImageOf(c);
    assert Logs(s.v, img) == s.logs;
    forall k | 0 <= k < s.v.segs ensures Entries(img)[k] == c.sit.se[k] && c.sit.se[k].typ < NR_LOGS {
      assert EntryOk(c.sit.se[k], s.v.blocksPerSeg);
      UnionSelf(c.sit.se[k].cur);
    }
    assert Entries(img) == c.sit.se;
    MountOk(s.v, img);
  }
}
