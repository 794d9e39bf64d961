/**
 * The segment information table on disk (segment.c, segment.h): a journal in the cold data log over the
 * paired SIT blocks, and how flush_sit_entries brings it up to date.
 */
module SitArea {
  import opened Bitmaps
  import opened Geometry
  import opened DirtySeglist
  import opened SitInfo
  import opened SegmentState
  import opened SegmentRuns
  import opened SegmentMount
  import opened TableLayout

  /** seg_info_to_raw_sit: what is stored of a segment entry. */
  function Raw(e: SegEntry): RawSit {
    RawSit(e.cur, e.typ)
  }

  /** The two halves of the SIT area hold one copy each, so the pairing distance is the number of blocks. */
  ghost predicate IsSit(l: Layout) {
    l.Valid() && l.blocksPerSeg == l.blocks
  }

  /** current_sit_addr. */
  function SitAddr(l: Layout, b: nat, bit: bool): int {
    l.base + b + (if bit then l.blocks else 0)
  }

  /** next_sit_addr. */
  function NextSitAddr(l: Layout, addr: int): int {
    var rel := addr - l.base;
    (if rel < l.blocks then rel + l.blocks else rel - l.blocks) + l.base
  }

  /** The SIT is a table of paired blocks like the NAT, with its own address arithmetic. */
  lemma {:induction false} SitIsPaired(l: Layout, b: nat, bit: bool)
    requires IsSit(l) && b < l.blocks
    ensures SitAddr(l, b, bit) == CopyAddr(l, b, bit)
    ensures NextSitAddr(l, SitAddr(l, b, bit)) == SitAddr(l, b, !bit)
  {
    DivUnique(b, l.blocks, 0, b);
  }

  /** A clean entry is on disk as it is in memory; every journal entry is for a segment there is. */
  ghost predicate Backed(l: Layout, t: Sit, s: Store<RawSit>)
    requires StoreOk(l, s)
  {
    && |t.se| == |t.dirty| <= l.MaxKey()
    && (forall i :: 0 <= i < |s.journal| ==> s.journal[i].key < |t.se|)
    && forall k: nat :: k < |t.se| && !t.dirty[k] ==> Stored(l, s, k) == Raw(t.se[k])
  }

  lemma BlockMono(l: Layout, a: nat, b: nat)
    requires l.Valid() && a <= b
    ensures l.BlockOf(a) <= l.BlockOf(b)
  {
    MulLe(l.BlockOf(b) + 1, l.BlockOf(a), l.perBlock);
    assert b == l.BlockOf(b) * l.perBlock + b % l.perBlock;
    assert a == l.BlockOf(a) * l.perBlock + a % l.perBlock;
    assert (l.BlockOf(b) + 1) * l.perBlock == l.BlockOf(b) * l.perBlock + l.perBlock;
  }

  /** The journal is gone, and everything it held is dirty. */
  lemma EmptiedBacked(l: Layout, t: Sit, s: Store<RawSit>)
    requires StoreOk(l, s) && Backed(l, t, s)
    requires forall i :: 0 <= i < |s.journal| ==> t.dirty[s.journal[i].key]
    ensures StoreOk(l, s.(journal := [])) && Backed(l, t, s.(journal := []))
  {
    var r := s.(journal := []);
    forall k: nat | k < |t.se| && !t.dirty[k] ensures Stored(l, r, k) == Raw(t.se[k]) {
      assert JournalIndex(s.journal, k) == |s.journal|;
      assert Stored(l, s, k) == Stored(l, r, k);
    }
  }

  /** A dirty entry that has been stored is clean and backed. */
  lemma WrittenBacked(l: Layout, t: Sit, s: Store<RawSit>, r: Store<RawSit>, segno: nat, u: Sit)
    requires StoreOk(l, s) && StoreOk(l, r) && Backed(l, t, s) && segno < |t.se|
    requires r.journal == s.journal || r.journal == JournalPut(s.journal, segno, Raw(t.se[segno]))
    requires forall k: nat :: k < l.MaxKey() ==> Stored(l, r, k) == if k == segno then Raw(t.se[segno]) else Stored(l, s, k)
    requires u.se == t.se[segno := FlushEntry(t.se[segno])] && u.dirty == t.dirty[segno := false]
    ensures Backed(l, u, r)
  {
  }

  /** Marking a clean entry dirty changes nothing for the flush. */
  lemma MarkKeepsFlush(v: Volume, t: Sit, k: nat)
    requires v.Valid() && SitOk(v, t) && k < v.segs
    ensures SitOk(v, MarkSitDirty(t, k)) && Flush(MarkSitDirty(t, k)) == Flush(t)
  {
    if !t.dirty[k] {
      OnesUpdate(t.dirty, k, true);
      CleanIsFlushed(v, t, k);
      SameFlush(t, MarkSitDirty(t, k), k);
    }
  }

  lemma CleanIsFlushed(v: Volume, t: Sit, k: nat)
    requires v.Valid() && SitOk(v, t) && k < v.segs && !t.dirty[k]
    ensures FlushEntry(t.se[k]) == t.se[k] && SitOk(v, MarkSitDirty(t, k))
  {
    assert EntryOk(t.se[k], v.blocksPerSeg);
    UnionSelf(t.se[k].cur);
    OnesUpdate(t.dirty, k, true);
    if v.segsPerSec > 1 { SectionSumsKept(v, t, MarkSitDirty(t, k)); }
  }

  lemma SameFlush(t: Sit, u: Sit, k: nat)
    requires |t.se| == |t.dirty| && k < |t.se| && FlushEntry(t.se[k]) == t.se[k]
    requires u == t.(dirty := t.dirty[k := true], nrDirty := t.nrDirty + 1) && Ones(u.dirty) == Ones(t.dirty) + 1
    ensures Flush(u) == Flush(t)
  {
    assert Flush(u).se == Flush(t).se;
  }

  // ----- what the operations between checkpoints do to the table -----

  /** An entry that is clean afterwards was clean before, and says the same. */
  ghost predicate OnlyDirtied(t: Sit, u: Sit) {
    && |t.se| == |u.se| == |t.dirty| == |u.dirty|
    && forall k :: 0 <= k < |t.se| && !u.dirty[k] ==> !t.dirty[k] && Raw(u.se[k]) == Raw(t.se[k])
  }

  lemma DirtiedBacked(l: Layout, t: Sit, u: Sit, s: Store<RawSit>)
    requires StoreOk(l, s) && Backed(l, t, s) && OnlyDirtied(t, u)
    ensures Backed(l, u, s)
  {
  }

  lemma DirtiedTwice(t: Sit, u: Sit, w: Sit)
    requires OnlyDirtied(t, u) && OnlyDirtied(u, w)
    ensures OnlyDirtied(t, w)
  {
  }

  lemma UpdateDirties(v: Volume, t: Sit, b: Block, on: bool)
    requires v.Valid() && SitOk(v, t) && InMain(v, b)
    ensures EntryOk(t.se[b.seg], v.blocksPerSeg) && OnlyDirtied(t, UpdateSit(v, t, b, on))
  {
  }

  lemma MidDirties(s: State, t: nat, prev: OldBlock, m: State)
    requires Inv(s) && t < NR_LOGS && OldOk(s, prev) && m == Mid(s, t, prev)
    ensures OnlyDirtied(s.sit, m.sit)
  {
    NextBlockIsHole(s, t);
    UpdateDirties(s.v, s.sit, NextBlock(s, t), true);
    if prev.OldBlock? {
      TakeKeepsOld(s, t, prev.b);
      UpdateDirties(s.v, TakeBlock(s, t).sit, prev.b, false);
      DirtiedTwice(s.sit, TakeBlock(s, t).sit, m.sit);
    }
  }

  lemma SwitchDirties(m: State, t: nat, c: Choice)
    requires Base(m) && t < NR_LOGS && Legal(m, t, c)
    ensures OnlyDirtied(m.sit, Switch(m, t, c).sit)
  {
  }

  lemma AllocateDirties(s: State, t: nat, prev: OldBlock, c: Choice, r: State)
    requires Inv(s) && t < NR_LOGS && OldOk(s, prev) && Legal(Mid(s, t, prev), t, c) && r == Allocate(s, t, prev, c)
    ensures OnlyDirtied(s.sit, r.sit)
  {
    AllocateSit(s, t, prev, c);
    MidDirties(s, t, prev, Mid(s, t, prev));
    SwitchDirties(Mid(s, t, prev), t, c);
    DirtiedTwice(s.sit, Mid(s, t, prev).sit, r.sit);
  }

  lemma InvalidateDirties(s: State, b: Block, r: State)
    requires Inv(s) && IsValidBlock(s, b) && r == Invalidate(s, b)
    ensures OnlyDirtied(s.sit, r.sit)
  {
    UpdateDirties(s.v, s.sit, b, false);
  }

  /** sit_info's part on disk; the journal is in the summary block of the cold data log. */
  class Area {
    const l: Layout
    var journal: seq<JournalEntry<RawSit>>
    var bitmap: seq<bool>
    var pages: map<int, seq<RawSit>>
    var dirtyPages: set<int>

    ghost function S(): Store<RawSit>
      reads this
    {
      Store(journal, bitmap, pages)
    }

    /** Between checkpoints: nothing waits to be written. */
    ghost predicate Valid()
      reads this
    {
      IsSit(l) && StoreOk(l, S()) && AllClean(l, dirtyPages)
    }

    /** The pages switched so far in this flush lie up to the one held, and that one is switched. */
    ghost predicate Held(cp: seq<bool>, cur: int)
      reads this`bitmap
    {
      && |bitmap| == |cp| == l.blocks && -1 <= cur < l.blocks
      && (forall b :: 0 <= b < l.blocks && bitmap[b] != cp[b] ==> b <= cur)
      && (cur >= 0 ==> bitmap[cur] != cp[cur])
    }

    /** lookup_journal_in_cursum(SIT_JOURNAL, segno, 0). */
    method LookupJournal(segno: nat) returns (i: nat)
      ensures i == JournalIndex(journal, segno)
    {
      i := 0;
      while i < |journal|
        invariant i <= |journal| && JournalIndex(journal, segno) == i + JournalIndex(journal[i..], segno)
      {
        if journal[i].key == segno { return; }
        assert journal[i..][1..] == journal[i + 1..];
        i := i + 1;
      }
    }

    /** get_next_sit_page.  Its BUG_ON is the precondition: the copy read from is not waiting to be written. */
    method GetNextSitPage(b: nat, ghost cp: seq<bool>, ghost before: map<int, seq<RawSit>>)
      requires IsSit(l) && StoreOk(l, S()) && b < l.blocks && Shadowed(l, S(), dirtyPages, cp, before)
      requires CurAddr(l, S(), b) !in dirtyPages
      modifies this`bitmap, this`pages, this`dirtyPages
      ensures S() == NextPage(l, old(S()), b)
      ensures StoreOk(l, S()) && Shadowed(l, S(), dirtyPages, cp, before)
      ensures forall k: nat :: k < l.MaxKey() ==> Stored(l, S(), k) == old(Stored(l, S(), k))
    {
      ghost var s := S();
      SitIsPaired(l, b, bitmap[b]);
      SitIsPaired(l, b, !bitmap[b]);
      NextIsTheOtherCopy(l, b, bitmap[b]);
      NextPageStored(l, s, b);
      ShadowNext(l, s, dirtyPages, cp, before, b);
      var src := SitAddr(l, b, bitmap[b]);
      var dst := NextSitAddr(l, src);
      pages := pages[dst := pages[src]];
      dirtyPages := dirtyPages + {dst};
      bitmap := bitmap[b := !bitmap[b]];
      assert S() == NextPage(l, s, b);
    }

    /** The page of segno, switched once in a flush because entries come in ascending order. */
    method HoldPage(segno: nat, cur: int, ghost cp: seq<bool>, ghost before: map<int, seq<RawSit>>) returns (cur': int)
      requires IsSit(l) && StoreOk(l, S()) && segno < l.MaxKey() && Shadowed(l, S(), dirtyPages, cp, before)
      requires Held(cp, cur) && cur <= l.BlockOf(segno)
      modifies this`bitmap, this`pages, this`dirtyPages
      ensures StoreOk(l, S()) && Shadowed(l, S(), dirtyPages, cp, before)
      ensures Held(cp, cur') && cur' == l.BlockOf(segno) && CurAddr(l, S(), cur') in dirtyPages
      ensures forall k: nat :: k < l.MaxKey() ==> Stored(l, S(), k) == old(Stored(l, S(), k))
    {
      BlockInRange(l, segno);
      cur' := l.BlockOf(segno);
      assert ShadowedAt(l, S(), dirtyPages, cp, before, cur');
      if cur != cur' {
        GetNextSitPage(cur', cp, before);
        assert ShadowedAt(l, S(), dirtyPages, cp, before, cur');
      }
    }

    method PutInPage(segno: nat, raw: RawSit, ghost cp: seq<bool>, ghost before: map<int, seq<RawSit>>)
      requires IsSit(l) && StoreOk(l, S()) && segno < l.MaxKey() && Shadowed(l, S(), dirtyPages, cp, before)
      requires l.BlockOf(segno) < l.blocks && CurAddr(l, S(), l.BlockOf(segno)) in dirtyPages
      requires JournalIndex(journal, segno) == |journal|
      modifies this`pages
      ensures StoreOk(l, S()) && Shadowed(l, S(), dirtyPages, cp, before)
      ensures forall k: nat :: k < l.MaxKey() ==> Stored(l, S(), k) == if k == segno then raw else old(Stored(l, S(), k))
    {
      ghost var s := S();
      PagePutStored(l, s, segno, raw);
      ShadowPut(l, s, dirtyPages, cp, before, segno, raw);
      var b := l.BlockOf(segno);
      SitIsPaired(l, b, bitmap[b]);
      var a := SitAddr(l, b, bitmap[b]);
      pages := pages[a := pages[a][segno % l.perBlock := raw]];
      assert S() == PagePut(l, s, segno, raw);
    }

    method PutInJournal(i: nat, segno: nat, raw: RawSit, ghost cp: seq<bool>, ghost before: map<int, seq<RawSit>>)
      requires IsSit(l) && StoreOk(l, S()) && segno < l.MaxKey() && Shadowed(l, S(), dirtyPages, cp, before)
      requires i == JournalIndex(journal, segno) && (i < |journal| || |journal| < l.journalMax)
      modifies this`journal
      ensures StoreOk(l, S()) && Shadowed(l, S(), dirtyPages, cp, before)
      ensures journal == JournalPut(old(journal), segno, raw)
      ensures forall k: nat :: k < l.MaxKey() ==> Stored(l, S(), k) == if k == segno then raw else old(Stored(l, S(), k))
    {
      ghost var s := S();
      JournalPutStored(l, s, segno, raw);
      if i < |journal| {
        journal := journal[i := JournalEntry(segno, raw)];
      } else {
        journal := journal + [JournalEntry(segno, raw)];
      }
      ghost var r := s.(journal := JournalPut(s.journal, segno, raw));
      assert S() == r;
      ShadowSame(l, s, r, dirtyPages, cp, before);
    }

    /** One entry of flush_sit_entries: into the journal while it has room, unless it was flushed, else into its SIT block. */
    method StoreRaw(segno: nat, raw: RawSit, flushed: bool, cur: int, ghost cp: seq<bool>, ghost before: map<int, seq<RawSit>>)
      returns (cur': int)
      requires IsSit(l) && StoreOk(l, S()) && segno < l.MaxKey() && Shadowed(l, S(), dirtyPages, cp, before)
      requires Held(cp, cur) && cur <= l.BlockOf(segno) && (flushed ==> journal == [])
      modifies this`journal, this`bitmap, this`pages, this`dirtyPages
      ensures StoreOk(l, S()) && Shadowed(l, S(), dirtyPages, cp, before)
      ensures Held(cp, cur') && cur <= cur' <= l.BlockOf(segno) && (flushed ==> journal == [])
      ensures var inJournal := !flushed && (JournalIndex(old(journal), segno) < |old(journal)| || |old(journal)| < l.journalMax);
        if inJournal then journal == JournalPut(old(journal), segno, raw) && pages == old(pages) && bitmap == old(bitmap)
        else journal == old(journal)
      ensures forall k: nat :: k < l.MaxKey() ==> Stored(l, S(), k) == if k == segno then raw else old(Stored(l, S(), k))
    {
      var i := LookupJournal(segno);
      if !flushed && (i < |journal| || |journal| < l.journalMax) {
        PutInJournal(i, segno, raw, cp, before);
        cur' := cur;
      } else {
        BlockInRange(l, segno);
        cur' := HoldPage(segno, cur, cp, before);
        PutInPage(segno, raw, cp, before);
      }
    }

    /** sync_meta_pages: the pages reach the disk. */
    method WritePages()
      requires IsSit(l) && StoreOk(l, S())
      modifies this`dirtyPages
      ensures Valid()
    {
      dirtyPages := {};
    }

    /** build_sit_entries: every segment's entry, from the journal if it is there, else from its SIT block. */
    method ReadSit(segs: nat) returns (sit: seq<RawSit>)
      requires IsSit(l) && StoreOk(l, S()) && segs <= l.MaxKey()
      ensures |sit| == segs && forall k: nat :: k < segs ==> sit[k] == Stored(l, S(), k)
    {
      sit := [];
      while |sit| < segs
        invariant |sit| <= segs && forall k: nat :: k < |sit| ==> sit[k] == Stored(l, S(), k)
      {
        var k := |sit|;
        BlockInRange(l, k);
        SitIsPaired(l, l.BlockOf(k), bitmap[l.BlockOf(k)]);
        var i := LookupJournal(k);
        var raw := if i < |journal| then journal[i].value
                   else pages[SitAddr(l, l.BlockOf(k), bitmap[l.BlockOf(k)])][k % l.perBlock];
        sit := sit + [raw];
      }
    }
  }
}
