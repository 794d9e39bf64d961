/**
 * write_checkpoint as a whole (checkpoint.c): first the pages of the SIT and NAT areas, in the copies that
 * the last checkpoint does not use, then the pack whose head carries the version bits that select them.
 * After a crash at any point a mount gives the tables of the last checkpoint or those of the new one.
 */
module CheckpointAtomicity {
  import opened Geometry
  import opened TableLayout
  import opened SegmentState
  import opened SegmentRuns
  import opened SegmentMount
  import SitInfo
  import opened SitArea
  import opened SegmentManager
  import opened NatManager
  import opened CheckpointPack

  // ----- one table -----

  /** The pages on disk when, of those waiting, exactly the ones in `reached` were written. */
  function PagesAfter<T>(before: map<int, seq<T>>, after: map<int, seq<T>>, dirty: set<int>, reached: set<int>)
    : map<int, seq<T>>
  {
    before + (map a | a in after && a in dirty && a in reached :: after[a])
  }

  /** Journal over selected copies says the same of every key. */
  ghost predicate SameTable<T>(l: Layout, s: Store<T>, r: Store<T>) {
    StoreOk(l, s) && StoreOk(l, r) && forall k: nat :: k < l.MaxKey() ==> Stored(l, s, k) == Stored(l, r, k)
  }

  /** What a flush has prepared, against the table of the last checkpoint. */
  ghost predicate TableFlushed<T>(l: Layout, last: Store<T>, next: Store<T>, dirty: set<int>) {
    StoreOk(l, last) && StoreOk(l, next) && Shadowed(l, next, dirty, last.bitmap, last.pages)
  }

  lemma SameSelected<T>(l: Layout, s: Store<T>, r: Store<T>)
    requires StoreOk(l, s) && StoreOk(l, r) && r.journal == s.journal && r.bitmap == s.bitmap
    requires forall b: nat :: b < l.blocks ==> SameCopy(l, s, r, b)
    ensures SameTable(l, s, r)
  {
    forall k: nat | k < l.MaxKey() ensures Stored(l, s, k) == Stored(l, r, k) {
      BlockInRange(l, k);
      assert SameCopy(l, s, r, l.BlockOf(k));
    }
  }

  ghost predicate SameCopy<T>(l: Layout, s: Store<T>, r: Store<T>, b: nat)
    requires StoreOk(l, s) && StoreOk(l, r) && b < l.blocks
  {
    s.pages[CurAddr(l, s, b)] == r.pages[CurAddr(l, s, b)]
  }

  lemma PagesThere<T>(l: Layout, last: Store<T>, next: Store<T>, dirty: set<int>, reached: set<int>, s: Store<T>)
    requires TableFlushed(l, last, next, dirty) && s.pages == PagesAfter(last.pages, next.pages, dirty, reached)
    requires |s.bitmap| == l.blocks && JournalOk(l, s.journal)
    ensures StoreOk(l, s)
  {
  }

  /** While the pages of the table are written, the table of the last checkpoint can be read as before. */
  lemma {:induction false} OldTableKept<T>(l: Layout, last: Store<T>, next: Store<T>, dirty: set<int>, reached: set<int>)
    requires TableFlushed(l, last, next, dirty)
    ensures SameTable(l, last, last.(pages := PagesAfter(last.pages, next.pages, dirty, reached)))
  {
    var r := last.(pages := PagesAfter(last.pages, next.pages, dirty, reached));
    PagesThere(l, last, next, dirty, reached, r);
    forall b: nat | b < l.blocks ensures SameCopy(l, last, r, b) {
      assert ShadowedAt(l, next, dirty, last.bitmap, last.pages, b);
    }
    SameSelected(l, last, r);
  }

  /** Once all of them are written, the new version bits select the new table. */
  lemma {:induction false} NewTableComplete<T>(l: Layout, last: Store<T>, next: Store<T>, dirty: set<int>)
    requires TableFlushed(l, last, next, dirty)
    ensures SameTable(l, next, next.(pages := PagesAfter(last.pages, next.pages, dirty, dirty)))
  {
    var r := next.(pages := PagesAfter(last.pages, next.pages, dirty, dirty));
    PagesThere(l, last, next, dirty, dirty, r);
    forall b: nat | b < l.blocks ensures SameCopy(l, next, r, b) {
      assert ShadowedAt(l, next, dirty, last.bitmap, last.pages, b);
    }
    SameSelected(l, next, r);
  }

  // ----- the whole disk -----

  type PackArea = CheckpointPack.Area

  /** The head of a pack: log positions, block count, the version bits of both tables, and where the summaries are. */
  datatype Head = Head(logs: seq<RawLog>, validBlocks: int, sitBits: seq<bool>, natBits: seq<bool>, sumAt: nat)

  /** The journals in the summary blocks of a pack, taken as one block. */
  datatype Sums = Sums(sit: seq<JournalEntry<RawSit>>, nats: seq<JournalEntry<NodeInfo>>)

  datatype Media = Media(cp: Disk, heads: map<int, Head>, sums: map<int, Sums>,
                       sit: map<int, seq<RawSit>>, nats: map<int, seq<NodeInfo>>)

  /** The tables a pack stands for. */
  function SitOf(h: Head, j: Sums, d: Media): Store<RawSit> { Store(j.sit, h.sitBits, d.sit) }
  function NatOf(h: Head, j: Sums, d: Media): Store<NodeInfo> { Store(j.nats, h.natBits, d.nats) }

  function HeadAt(d: Media, a: int): Head { if a in d.heads then d.heads[a] else Head([], 0, [], [], 0) }
  function SumsAt(d: Media, a: int): Sums { if a in d.sums then d.sums[a] else Sums([], []) }

  /** What a mount finds: the version, its head, and the two tables read with its bits and journals. */
  datatype Found = Found(ver: int, head: Head, sit: Store<RawSit>, nats: Store<NodeInfo>)

  function MountDisk(ar: PackArea, d: Media): Found {
    var w := Mounted(ar, d.cp);
    var h := HeadAt(d, StartOf(ar, w));
    var j := SumsAt(d, StartOf(ar, w) + h.sumAt);
    Found(w, h, SitOf(h, j, d), NatOf(h, j, d))
  }

  /** What a checkpoint is about to write: flushed tables with the pages that wait, and the pack. */
  datatype Update = Update(head: Head, sums: Sums, total: nat,
                           sit: Store<RawSit>, sitDirty: set<int>, nats: Store<NodeInfo>, natDirty: set<int>)

  /** Where the crash comes: while table pages are written, or, all of them being on disk, while the pack is. */
  datatype Moment = InTables(sit: set<int>, nats: set<int>) | InPack(reached: set<int>)

  function Crashed(ar: PackArea, d: Media, v: int, u: Update, c: Moment): Media
    requires 2 <= u.total
  {
    match c
    case InTables(ss, ns) =>
      d.(sit := PagesAfter(d.sit, u.sit.pages, u.sitDirty, ss), nats := PagesAfter(d.nats, u.nats.pages, u.natDirty, ns))
    case InPack(reached) =>
      var start := StartOf(ar, Next(v));
      Media(Crash(d.cp, PackBlocks(start, Next(v), u.total), reached),
           if start in reached then d.heads[start := u.head] else d.heads,
           if start + u.head.sumAt in reached then d.sums[start + u.head.sumAt := u.sums] else d.sums,
           PagesAfter(d.sit, u.sit.pages, u.sitDirty, u.sitDirty), PagesAfter(d.nats, u.nats.pages, u.natDirty, u.natDirty))
  }

  /** Pack v is the one mounted, with this head and these journals. */
  ghost predicate Stands(ar: PackArea, d: Media, v: int, total: nat, h: Head, j: Sums) {
    && Settled(ar, d.cp, v, total) && h.sumAt < total
    && HeadAt(d, StartOf(ar, v)) == h && SumsAt(d, StartOf(ar, v) + h.sumAt) == j
  }

  /** The update fits its segment and continues the tables of pack v. */
  ghost predicate Continues(ar: PackArea, ls: Layout, ln: Layout, d: Media, h: Head, j: Sums, u: Update) {
    && 2 <= u.total <= ar.blocksPerSeg && u.head.sumAt < u.total
    && u.sit.bitmap == u.head.sitBits && u.sit.journal == u.sums.sit
    && u.nats.bitmap == u.head.natBits && u.nats.journal == u.sums.nats
    && TableFlushed(ls, SitOf(h, j, d), u.sit, u.sitDirty) && TableFlushed(ln, NatOf(h, j, d), u.nats, u.natDirty)
  }

  /** Head and tail of the new pack were both written. */
  predicate Whole(ar: PackArea, v: int, u: Update, c: Moment) {
    var start := StartOf(ar, Next(v));
    c.InPack? && start in c.reached && start + u.total - 1 in c.reached
  }

  /** The pack is one write: with head and tail its summaries are there, too. */
  predicate OneWrite(ar: PackArea, v: int, u: Update, c: Moment) {
    Whole(ar, v, u, c) ==> StartOf(ar, Next(v)) + u.head.sumAt in c.reached
  }

  lemma VersionFound(ar: PackArea, d: Media, v: int, total: nat, u: Update, c: Moment)
    requires Settled(ar, d.cp, v, total) && 2 <= u.total <= ar.blocksPerSeg && NoLeftover(ar, d.cp, v, u.total)
    ensures Mounted(ar, Crashed(ar, d, v, u, c).cp) == if Whole(ar, v, u, c) then Next(v) else v
  {
    if c.InPack? {
      assert Crashed(ar, d, v, u, c).cp
          == Crash(d.cp, PackBlocks(StartOf(ar, Next(v)), Next(v), u.total), c.reached);
      CrashOutcome(ar, d.cp, v, total, u.total, c.reached);
    } else {
      assert Crashed(ar, d, v, u, c).cp == d.cp;
    }
  }

  lemma SegmentsApart(ar: PackArea, v: int, i: nat, k: nat)
    requires 0 <= v < U64 && i < ar.blocksPerSeg && k < ar.blocksPerSeg
    ensures StartOf(ar, v) + i != StartOf(ar, Next(v)) + k
  {
    TwoSegments(ar, v);
  }

  /** The pack of version v is left alone. */
  lemma OldPackRead(ar: PackArea, d: Media, v: int, total: nat, h: Head, j: Sums, u: Update, c: Moment)
    requires Stands(ar, d, v, total, h, j) && 2 <= u.total <= ar.blocksPerSeg && u.head.sumAt < u.total
    ensures HeadAt(Crashed(ar, d, v, u, c), StartOf(ar, v)) == h
    ensures SumsAt(Crashed(ar, d, v, u, c), StartOf(ar, v) + h.sumAt) == j
  {
    SegmentsApart(ar, v, 0, 0);
    SegmentsApart(ar, v, 0, u.head.sumAt);
    SegmentsApart(ar, v, h.sumAt, 0);
    SegmentsApart(ar, v, h.sumAt, u.head.sumAt);
  }

  /** The pages in the two cases of a crash that leaves pack v mounted. */
  lemma OldTablesFound(ar: PackArea, ls: Layout, ln: Layout, d: Media, v: int, h: Head, j: Sums, u: Update, c: Moment)
    requires Continues(ar, ls, ln, d, h, j, u)
    ensures var e := Crashed(ar, d, v, u, c);
      SameTable(ls, SitOf(h, j, d), SitOf(h, j, e)) && SameTable(ln, NatOf(h, j, d), NatOf(h, j, e))
  {
    OldTableKept(ls, SitOf(h, j, d), u.sit, u.sitDirty, if c.InTables? then c.sit else u.sitDirty);
    OldTableKept(ln, NatOf(h, j, d), u.nats, u.natDirty, if c.InTables? then c.nats else u.natDirty);
  }

  lemma NewTablesFound(ar: PackArea, ls: Layout, ln: Layout, d: Media, v: int, h: Head, j: Sums, u: Update, c: Moment)
    requires Continues(ar, ls, ln, d, h, j, u) && c.InPack?
    ensures var e := Crashed(ar, d, v, u, c);
      SameTable(ls, u.sit, SitOf(u.head, u.sums, e)) && SameTable(ln, u.nats, NatOf(u.head, u.sums, e))
  {
    NewTableComplete(ls, SitOf(h, j, d), u.sit, u.sitDirty);
    NewTableComplete(ln, NatOf(h, j, d), u.nats, u.natDirty);
  }

  /** What a mount finds is this head with these tables. */
  ghost predicate Gives(f: Found, ls: Layout, ln: Layout, ver: int, h: Head, sit: Store<RawSit>, nats: Store<NodeInfo>) {
    f.ver == ver && f.head == h && SameTable(ls, sit, f.sit) && SameTable(ln, nats, f.nats)
  }

  lemma GivesRead(ar: PackArea, ls: Layout, ln: Layout, e: Media, ver: int, h: Head, j: Sums,
                  sit: Store<RawSit>, nats: Store<NodeInfo>)
    requires Mounted(ar, e.cp) == ver
    requires HeadAt(e, StartOf(ar, ver)) == h && SumsAt(e, StartOf(ar, ver) + h.sumAt) == j
    requires SameTable(ls, sit, SitOf(h, j, e)) && SameTable(ln, nats, NatOf(h, j, e))
    ensures Gives(MountDisk(ar, e), ls, ln, ver, h, sit, nats)
  {
  }

  lemma NewPackRead(ar: PackArea, d: Media, v: int, u: Update, c: Moment)
    requires 2 <= u.total && Whole(ar, v, u, c) && OneWrite(ar, v, u, c)
    ensures HeadAt(Crashed(ar, d, v, u, c), StartOf(ar, Next(v))) == u.head
    ensures SumsAt(Crashed(ar, d, v, u, c), StartOf(ar, Next(v)) + u.head.sumAt) == u.sums
  {
  }

  ghost predicate OldOrNew(ar: PackArea, ls: Layout, ln: Layout, d: Media, v: int, h: Head, j: Sums, u: Update, c: Moment)
    requires 2 <= u.total
  {
    var f := MountDisk(ar, Crashed(ar, d, v, u, c));
    && (Whole(ar, v, u, c) ==> Gives(f, ls, ln, Next(v), u.head, u.sit, u.nats))
    && (!Whole(ar, v, u, c) ==> Gives(f, ls, ln, v, h, SitOf(h, j, d), NatOf(h, j, d)))
  }

  /**
   * After a crash at any point of a checkpoint a mount gives the head and both tables of version v, or the
   * head and both tables of version v + 1, and the latter exactly when head and tail of its pack were written.
   */
  lemma {:induction false} CheckpointIsAtomic(ar: PackArea, ls: Layout, ln: Layout, d: Media, v: int, total: nat,
                                              h: Head, j: Sums, u: Update, c: Moment)
    requires Stands(ar, d, v, total, h, j) && Continues(ar, ls, ln, d, h, j, u)
    requires NoLeftover(ar, d.cp, v, u.total) && OneWrite(ar, v, u, c)
    ensures OldOrNew(ar, ls, ln, d, v, h, j, u, c)
  {
    VersionFound(ar, d, v, total, u, c);
    var e := Crashed(ar, d, v, u, c);
    if Whole(ar, v, u, c) {
      NewPackRead(ar, d, v, u, c);
      NewTablesFound(ar, ls, ln, d, v, h, j, u, c);
      GivesRead(ar, ls, ln, e, Next(v), u.head, u.sums, u.sit, u.nats);
    } else {
      OldPackRead(ar, d, v, total, h, j, u, c);
      OldTablesFound(ar, ls, ln, d, v, h, j, u, c);
      GivesRead(ar, ls, ln, e, v, h, j, SitOf(h, j, d), NatOf(h, j, d));
    }
  }

  /** Every crash is harmless exactly when nothing is left over from an earlier attempt at this version. */
  lemma {:induction false} AtomicIff(ar: PackArea, ls: Layout, ln: Layout, d: Media, v: int, total: nat,
                                     h: Head, j: Sums, u: Update)
    requires Stands(ar, d, v, total, h, j) && Continues(ar, ls, ln, d, h, j, u)
    ensures NoLeftover(ar, d.cp, v, u.total) <==>
      forall c: Moment :: OneWrite(ar, v, u, c) ==> OldOrNew(ar, ls, ln, d, v, h, j, u, c)
  {
    if NoLeftover(ar, d.cp, v, u.total) {
      forall c: Moment | OneWrite(ar, v, u, c) ensures OldOrNew(ar, ls, ln, d, v, h, j, u, c) {
        CheckpointIsAtomic(ar, ls, ln, d, v, total, h, j, u, c);
      }
    } else {
      var reached := LeftoverCompletes(ar, d.cp, v, total, u.total);
      MixedPack(ar, ls, ln, d, v, h, j, u, reached);
    }
  }

  lemma MixedPack(ar: PackArea, ls: Layout, ln: Layout, d: Media, v: int, h: Head, j: Sums, u: Update, reached: set<int>)
    requires 2 <= u.total && 0 <= v < U64 && HalfMounted(ar, d.cp, v, u.total, reached)
    ensures OneWrite(ar, v, u, InPack(reached)) && !OldOrNew(ar, ls, ln, d, v, h, j, u, InPack(reached))
  {
    NextIsAfter(v);
    assert MountDisk(ar, Crashed(ar, d, v, u, InPack(reached))).ver == Next(v);
  }

  /**
   * The other condition is needed, too: the pack is judged by its head and tail only, so with its summaries lost the
   * new version is mounted all the same, with the journals that its place on disk held before.
   */
  lemma {:induction false} LostSummaries(ar: PackArea, d: Media, v: int, total: nat, u: Update, c: Moment)
    requires Settled(ar, d.cp, v, total) && 2 <= u.total <= ar.blocksPerSeg && NoLeftover(ar, d.cp, v, u.total)
    requires Whole(ar, v, u, c) && !OneWrite(ar, v, u, c)
    ensures var f := MountDisk(ar, Crashed(ar, d, v, u, c)); var at := StartOf(ar, Next(v)) + u.head.sumAt;
      f.ver == Next(v) && f.head == u.head && f.sit.journal == SumsAt(d, at).sit && f.nats.journal == SumsAt(d, at).nats
  {
    VersionFound(ar, d, v, total, u, c);
  }

  // ----- the segment manager after the mount -----

  /** The image build_segment_manager reads. */
  ghost function ImageFound(l: Layout, f: Found, segs: nat): Image
    requires StoreOk(l, f.sit) && segs <= l.MaxKey()
  {
    Image(seq(segs, k requires 0 <= k < segs => Stored(l, f.sit, k)), f.head.logs, f.head.validBlocks)
  }

  /** Head and SIT of a checkpoint taken in state s. */
  ghost predicate Records(l: Layout, s: State, h: Head, sit: Store<RawSit>) {
    && Inv(s) && StoreOk(l, sit) && s.v.segs <= l.MaxKey()
    && h.logs == ImageOf(s).logs && h.validBlocks == ImageOf(s).validBlocks
    && forall k: nat :: k < s.v.segs ==> Stored(l, sit, k) == ImageOf(s).sit[k]
  }

  lemma RecordedImage(l: Layout, s: State, f: Found, h: Head, sit: Store<RawSit>)
    requires Records(l, s, h, sit) && f.head == h && SameTable(l, sit, f.sit)
    ensures ImageFound(l, f, s.v.segs) == ImageOf(s)
  {
  }

  /** So the segment manager comes up as the last checkpoint left it, or as the new one did. */
  lemma {:induction false} SegmentsAreAtomic(ar: PackArea, ls: Layout, ln: Layout, d: Media, v: int, total: nat,
                                             h: Head, j: Sums, u: Update, c: Moment, last: State, next: State)
    requires Stands(ar, d, v, total, h, j) && Continues(ar, ls, ln, d, h, j, u)
    requires NoLeftover(ar, d.cp, v, u.total) && OneWrite(ar, v, u, c)
    requires Inv(last) && Inv(next) && next.v == last.v
    requires Records(ls, Checkpoint(last), h, SitOf(h, j, d)) && Records(ls, Checkpoint(next), u.head, u.sit)
    ensures var f := MountDisk(ar, Crashed(ar, d, v, u, c));
      var s := if Whole(ar, v, u, c) then next else last;
      && StoreOk(ls, f.sit) && s.v.segs <= ls.MaxKey() && ImageOk(s.v, ImageFound(ls, f, s.v.segs))
      && Mount(s.v, ImageFound(ls, f, s.v.segs)).logs == s.logs
      && Mount(s.v, ImageFound(ls, f, s.v.segs)).sit.se == Checkpoint(s).sit.se
  {
    CheckpointIsAtomic(ar, ls, ln, d, v, total, h, j, u, c);
    var f := MountDisk(ar, Crashed(ar, d, v, u, c));
    if Whole(ar, v, u, c) {
      CheckpointRemounts(next);
      RecordedImage(ls, Checkpoint(next), f, u.head, u.sit);
    } else {
      CheckpointRemounts(last);
      RecordedImage(ls, Checkpoint(last), f, h, SitOf(h, j, d));
    }
  }

  /** The two flushes of write_checkpoint prepare both tables. */
  method FlushTables(m: Manager, n: NodeManager, accepts: set<nat>)
    requires m.v.Valid() && SitInfo.SitOk(m.v, m.SitNow()) && m.BackedNow()
    requires NatOk(n.l, n.T()) && AllClean(n.l, n.dirtyPages)
    modifies m`sentries, m`dirtySentries, m`nrDirtySentries, m.area, n
    ensures TableFlushed(m.area.l, old(m.area.S()), m.area.S(), m.area.dirtyPages)
    ensures m.SitNow() == SitInfo.Flush(old(m.SitNow()))
    ensures forall k: nat :: k < |m.sentries| <= m.area.l.MaxKey() ==> Stored(m.area.l, m.area.S(), k) == Raw(m.sentries[k])
    ensures TableFlushed(n.l, old(n.S()), n.S(), n.dirtyPages)
    ensures NatOk(n.l, n.T()) && View(n.l, n.T()) == old(View(n.l, n.T()))
    ensures forall k: nat :: k < n.l.MaxKey() && View(n.l, n.T())[k].blk != NEW_ADDR ==>
      Stored(n.l, n.S(), k) == View(n.l, n.T())[k]
  {
    n.FlushNatEntries(accepts);
    m.FlushSitEntries();
  }

  /** do_checkpoint fills in the head and the summaries. */
  method FillPack(m: Manager, n: NodeManager, total: nat, sumAt: nat) returns (u: Update)
    ensures u.total == total && u.head.sumAt == sumAt && u.head.validBlocks == m.written && u.head.logs == RawLogs(m.cursegs)
    ensures u.sit == m.area.S() && u.head.sitBits == m.area.bitmap && u.sums.sit == m.area.journal
    ensures u.nats == n.S() && u.head.natBits == n.natBitmap && u.sums.nats == n.journal
    ensures u.sitDirty == m.area.dirtyPages && u.natDirty == n.dirtyPages
  {
    u := Update(Head(RawLogs(m.cursegs), m.written, m.area.bitmap, n.natBitmap, sumAt),
                Sums(m.area.journal, n.journal), total,
                Store(m.area.journal, m.area.bitmap, m.area.pages), m.area.dirtyPages,
                Store(n.journal, n.natBitmap, n.pages), n.dirtyPages);
  }

  function RawLogs(logs: seq<Log>): seq<RawLog> {
    seq(|logs|, t requires 0 <= t < |logs| => RawLog(logs[t].segno, logs[t].blkoff, logs[t].ssr))
  }

  lemma RecordsFlushed(l: Layout, s: State, h: Head, sit: Store<RawSit>)
    requires Inv(s) && StoreOk(l, sit) && s.v.segs <= l.MaxKey()
    requires h.logs == RawLogs(s.logs) && h.validBlocks == s.sit.written
    requires forall k: nat :: k < s.v.segs ==> Stored(l, sit, k) == Raw(SitInfo.Flush(s.sit).se[k])
    ensures Inv(Checkpoint(s)) && Records(l, Checkpoint(s), h, sit)
  {
    CheckpointKeeps(s);
    assert RawLogs(s.logs) == ImageOf(Checkpoint(s)).logs;
  }

  /**
   * Both tables are flushed and the pack filled in.  What is then about to be written continues what is on
   * disk, and records the segment manager as the checkpoint leaves it and every node address that is settled.
   */
  method Prepare(m: Manager, n: NodeManager, accepts: set<nat>, ar: PackArea, total: nat, sumAt: nat,
                 ghost d: Media, ghost h: Head, ghost j: Sums) returns (u: Update)
    requires Inv(m.St()) && m.BackedNow() && NatOk(n.l, n.T()) && AllClean(n.l, n.dirtyPages)
    requires SitOf(h, j, d) == m.area.S() && NatOf(h, j, d) == n.S()
    requires 2 <= total <= ar.blocksPerSeg && sumAt < total
    modifies m`sentries, m`dirtySentries, m`nrDirtySentries, m.area, n
    ensures u.total == total && u.head.sumAt == sumAt && Continues(ar, m.area.l, n.l, d, h, j, u)
    ensures Inv(old(m.St())) && Inv(Checkpoint(old(m.St()))) && Records(m.area.l, Checkpoint(old(m.St())), u.head, u.sit)
    ensures NatOk(n.l, n.T()) && u.nats == n.S() && View(n.l, n.T()) == old(View(n.l, n.T()))
    ensures forall k: nat :: k < n.l.MaxKey() && View(n.l, n.T())[k].blk != NEW_ADDR ==>
      Stored(n.l, u.nats, k) == View(n.l, n.T())[k]
  {
    ghost var s := m.St();
    FlushTables(m, n, accepts);
    u := FillPack(m, n, total, sumAt);
    RecordsFlushed(m.area.l, s, u.head, u.sit);
  }
}
