/** sit_info: per-segment validity maps and the totals kept beside them. */
module SitInfo {
  import opened Bitmaps
  import opened Geometry

  /** seg_entry: validity now and at the last checkpoint, and the log type. */
  datatype SegEntry = SegEntry(valid: int, cur: seq<bool>, ckptValid: int, ckpt: seq<bool>, typ: nat)

  /** `valid` counts the valid blocks; `ckptValid` counts blocks valid now or at the checkpoint. */
  ghost predicate EntryOk(e: SegEntry, blocks: nat) {
    && |e.cur| == blocks && |e.ckpt| == blocks
    && e.valid == Ones(e.cur) && e.ckptValid == Ones(Union(e.cur, e.ckpt))
    && e.typ < 6
  }

  /** Neither valid now nor referenced by the last checkpoint: safe to overwrite. */
  predicate Hole(e: SegEntry, off: nat) {
    off < |e.cur| && off < |e.ckpt| && !e.cur[off] && !e.ckpt[off]
  }

  datatype Sit = Sit(se: seq<SegEntry>, dirty: seq<bool>, nrDirty: int, written: int, secValid: seq<int>)

  /** Number of valid blocks in the segments lo..hi. */
  function SumValid(se: seq<SegEntry>, lo: nat, hi: nat): int
    requires hi <= |se|
  {
    if lo >= hi then 0 else SumValid(se, lo, hi - 1) + se[hi - 1].valid
  }

  lemma {:induction false} SumValidUpdate(se: seq<SegEntry>, lo: nat, hi: nat, k: nat, e: SegEntry)
    requires hi <= |se| && k < |se|
    ensures SumValid(se[k := e], lo, hi)
      == SumValid(se, lo, hi) + (if lo <= k < hi then e.valid - se[k].valid else 0)
  {
    if lo < hi { SumValidUpdate(se, lo, hi - 1, k, e); }
  }

  ghost predicate SectionSums(v: Volume, t: Sit)
    requires v.Valid() && |t.se| == v.segs
  {
    && |t.secValid| == v.Secs()
    && forall j :: 0 <= j < v.Secs() ==> SectionSum(v, t, j)
  }

  ghost predicate SectionSum(v: Volume, t: Sit, j: nat)
    requires v.Valid() && |t.se| == v.segs && |t.secValid| == v.Secs() && j < v.Secs()
  {
    j * v.segsPerSec + v.segsPerSec <= v.segs &&
    t.secValid[j] == SumValid(t.se, j * v.segsPerSec, j * v.segsPerSec + v.segsPerSec)
  }

  ghost predicate SitOk(v: Volume, t: Sit)
    requires v.Valid()
  {
    && |t.se| == v.segs && |t.dirty| == v.segs
    && (forall k :: 0 <= k < v.segs ==> EntryOk(t.se[k], v.blocksPerSeg))
    && (forall k :: 0 <= k < v.segs && !t.dirty[k] ==> t.se[k].ckpt == t.se[k].cur)
    && t.nrDirty == Ones(t.dirty)
    && t.written == SumValid(t.se, 0, v.segs) + v.carried
    && (v.segsPerSec > 1 ==> SectionSums(v, t))
  }

  /** __mark_sit_entry_dirty. */
  function MarkSitDirty(t: Sit, k: nat): Sit
    requires k < |t.dirty|
  {
    if t.dirty[k] then t else t.(dirty := t.dirty[k := true], nrDirty := t.nrDirty + 1)
  }

  function Bump(s: seq<int>, i: nat, d: int): (r: seq<int>)
    ensures |r| == |s|
    ensures forall k :: 0 <= k < |s| ==> r[k] == if k == i then s[k] + d else s[k]
  {
    if i < |s| then s[i := s[i] + d] else s
  }

  /** One block of a segment becoming valid (`on`) or invalid. */
  function UpdateEntry(e: SegEntry, off: nat, on: bool): (r: SegEntry)
    requires off < |e.cur| && off < |e.ckpt|
  {
    var del := if on then 1 else -1;
    e.(valid := e.valid + del, cur := e.cur[off := on],
       ckptValid := if e.ckpt[off] then e.ckptValid else e.ckptValid + del)
  }

  /** update_sit_entry for one block of segment k becoming valid (`on`) or invalid. */
  function UpdateSit(v: Volume, t: Sit, b: Block, on: bool): (r: Sit)
    requires 0 < v.segsPerSec && b.seg < |t.se| && |t.dirty| == |t.se|
    requires b.off < |t.se[b.seg].cur| && b.off < |t.se[b.seg].ckpt|
  {
    var del := if on then 1 else -1;
    var t' := MarkSitDirty(t, b.seg).(se := t.se[b.seg := UpdateEntry(t.se[b.seg], b.off, on)],
                                      written := t.written + del);
    if v.segsPerSec > 1 then
      t'.(secValid := Bump(t.secValid, v.SecOf(b.seg), del))
    else t'
  }

  lemma {:induction false} EntryUpdateOk(e: SegEntry, blocks: nat, off: nat, on: bool)
    requires EntryOk(e, blocks) && off < blocks && e.cur[off] != on
    ensures EntryOk(UpdateEntry(e, off, on), blocks)
  {
    OnesUpdate(e.cur, off, on);
    var u := Union(e.cur, e.ckpt);
    OnesUpdate(u, off, on || e.ckpt[off]);
    assert Union(e.cur[off := on], e.ckpt) == u[off := on || e.ckpt[off]];
  }

  lemma {:induction false} SumValidCongruent(a: seq<SegEntry>, b: seq<SegEntry>, lo: nat, hi: nat)
    requires |a| == |b| && hi <= |a| && forall k :: 0 <= k < |a| ==> a[k].valid == b[k].valid
    ensures SumValid(a, lo, hi) == SumValid(b, lo, hi)
  {
    if lo < hi { SumValidCongruent(a, b, lo, hi - 1); }
  }

  lemma {:induction false} SectionSumsKept(v: Volume, t: Sit, r: Sit)
    requires v.Valid() && |t.se| == |r.se| == v.segs && SectionSums(v, t) && r.secValid == t.secValid
    requires forall k :: 0 <= k < v.segs ==> t.se[k].valid == r.se[k].valid
    ensures SectionSums(v, r)
  {
    forall j | 0 <= j < v.Secs() ensures SectionSum(v, r, j) {
      assert SectionSum(v, t, j);
      SumValidCongruent(t.se, r.se, j * v.segsPerSec, j * v.segsPerSec + v.segsPerSec);
    }
  }

  lemma {:induction false} UpdateSitSections(v: Volume, t: Sit, b: Block, on: bool)
    requires v.Valid() && SitOk(v, t) && InMain(v, b) && v.segsPerSec > 1 && v.SecOf(b.seg) < v.Secs()
    ensures |UpdateSit(v, t, b, on).se| == v.segs && SectionSums(v, UpdateSit(v, t, b, on))
  {
    var r := UpdateSit(v, t, b, on);
    forall j | 0 <= j < v.Secs() ensures SectionSum(v, r, j) {
      assert SectionSum(v, t, j);
      SectionOf(v, b.seg, j);
      SumValidUpdate(t.se, j * v.segsPerSec, j * v.segsPerSec + v.segsPerSec, b.seg, r.se[b.seg]);
    }
  }

  /** A block changing validity keeps every count in step, provided it really changes. */
  lemma {:induction false} UpdateSitOk(v: Volume, t: Sit, b: Block, on: bool)
    requires v.Valid() && SitOk(v, t) && InMain(v, b) && t.se[b.seg].cur[b.off] != on
    ensures SitOk(v, UpdateSit(v, t, b, on))
  {
    SectionInRange(v, b.seg);
    var r := UpdateSit(v, t, b, on);
    EntryUpdateOk(t.se[b.seg], v.blocksPerSeg, b.off, on);
    OnesUpdate(t.dirty, b.seg, true);
    SumValidUpdate(t.se, 0, v.segs, b.seg, r.se[b.seg]);
    if v.segsPerSec > 1 { UpdateSitSections(v, t, b, on); }
  }

  /** __set_sit_entry_type with `modified` on. */
  function SetType(t: Sit, k: nat, typ: nat): Sit
    requires k < |t.se| && |t.dirty| == |t.se|
  {
    MarkSitDirty(t, k).(se := t.se[k := t.se[k].(typ := typ)])
  }

  lemma {:induction false} SetTypeOk(v: Volume, t: Sit, k: nat, typ: nat)
    requires v.Valid() && SitOk(v, t) && k < v.segs && typ < 6
    ensures SitOk(v, SetType(t, k, typ))
  {
    var r := SetType(t, k, typ);
    OnesUpdate(t.dirty, k, true);
    SumValidCongruent(t.se, r.se, 0, v.segs);
    if v.segsPerSec > 1 { SectionSumsKept(v, t, r); }
  }

  /** seg_info_to_raw_sit: what is flushed becomes the checkpointed map. */
  function FlushEntry(e: SegEntry): (r: SegEntry) {
    e.(ckpt := e.cur, ckptValid := e.valid)
  }

  /** flush_sit_entries over all dirty entries. */
  function Flush(t: Sit): (r: Sit)
    requires |t.dirty| == |t.se|
  {
    t.(se := seq(|t.se|, k requires 0 <= k < |t.se| => if t.dirty[k] then FlushEntry(t.se[k]) else t.se[k]),
       dirty := seq(|t.dirty|, _ => false), nrDirty := t.nrDirty - Ones(t.dirty))
  }

  lemma UnionSelf(a: seq<bool>)
    ensures Union(a, a) == a
  {
  }

  /** After the flush the checkpointed maps are the current maps, everywhere. */
  lemma {:induction false} FlushOk(v: Volume, t: Sit)
    requires v.Valid() && SitOk(v, t)
    ensures SitOk(v, Flush(t))
    ensures forall k :: 0 <= k < v.segs ==> Flush(t).se[k] == FlushEntry(t.se[k])
  {
    var r := Flush(t);
    forall k | 0 <= k < v.segs ensures EntryOk(r.se[k], v.blocksPerSeg) && r.se[k] == FlushEntry(t.se[k]) {
      UnionSelf(t.se[k].cur);
    }
    OnesZero(r.dirty);
    SumValidCongruent(t.se, r.se, 0, v.segs);
    if v.segsPerSec > 1 { SectionSumsKept(v, t, r); }
  }
}
