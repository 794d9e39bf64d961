/**
 * When the walk of find_fsync_dnodes comes to an end (recovery.c): exactly when it never returns to a block,
 * and how blocks lost in a crash can make it go round for ever.
 */
module RecoveryWalk {
  import opened Bitmaps
  import opened Geometry
  import opened FreeSegmap
  import opened DirtySeglist
  import opened SitInfo
  import opened SegmentState
  import opened SegmentRuns
  import opened SegmentMount
  import opened RollForward

  type FooterMap = map<Block, Footer>

  /** The loop goes on past this block. */
  predicate Current(disk: FooterMap, ver: nat, b: Block) {
    b in disk && disk[b].ver == ver
  }

  /** Where the walk is after n steps; once stopped it stays. */
  function At(disk: FooterMap, ver: nat, start: Block, n: nat): Block {
    if n == 0 then start
    else
      var p := At(disk, ver, start, n - 1);
      if Current(disk, ver, p) then disk[p].next else p
  }

  ghost predicate Ends(disk: FooterMap, ver: nat, start: Block) {
    exists n: nat :: !Current(disk, ver, At(disk, ver, start, n))
  }

  ghost predicate CurrentBelow(disk: FooterMap, ver: nat, start: Block, n: nat) {
    forall k: nat :: k < n ==> Current(disk, ver, At(disk, ver, start, k))
  }

  /** The walk is back at a block it has seen. */
  ghost predicate Returns(disk: FooterMap, ver: nat, start: Block, i: nat, j: nat) {
    i < j && CurrentBelow(disk, ver, start, j) && At(disk, ver, start, i) == At(disk, ver, start, j)
  }

  ghost predicate Loops(disk: FooterMap, ver: nat, start: Block) {
    exists i: nat, j: nat :: Returns(disk, ver, start, i, j)
  }

  /** Walking on from where the walk is. */
  lemma {:induction false} AtSum(disk: FooterMap, ver: nat, start: Block, a: nat, b: nat)
    ensures At(disk, ver, start, a + b) == At(disk, ver, At(disk, ver, start, a), b)
  {
    if b > 0 { AtSum(disk, ver, start, a, b - 1); }
  }

  lemma {:induction false} LoopGoesOn(disk: FooterMap, ver: nat, start: Block, i: nat, j: nat, n: nat)
    requires Returns(disk, ver, start, i, j)
    ensures Current(disk, ver, At(disk, ver, start, n))
  {
    if n >= j {
      AtSum(disk, ver, start, j, n - j);
      AtSum(disk, ver, start, i, n - j);
      LoopGoesOn(disk, ver, start, i, j, i + (n - j));
    }
  }

  /** The blocks of the first n steps. */
  function Seen(disk: FooterMap, ver: nat, start: Block, n: nat): set<Block> {
    if n == 0 then {} else Seen(disk, ver, start, n - 1) + {At(disk, ver, start, n - 1)}
  }

  lemma {:induction false} SeenAt(disk: FooterMap, ver: nat, start: Block, n: nat, b: Block) returns (k: nat)
    requires b in Seen(disk, ver, start, n)
    ensures k < n && b == At(disk, ver, start, k)
  {
    k := n - 1;
    if b != At(disk, ver, start, k) { k := SeenAt(disk, ver, start, n - 1, b); }
  }

  lemma SeenAgain(disk: FooterMap, ver: nat, start: Block, n: nat)
    requires CurrentBelow(disk, ver, start, n)
    ensures At(disk, ver, start, n) in Seen(disk, ver, start, n) ==> Loops(disk, ver, start)
  {
    if At(disk, ver, start, n) in Seen(disk, ver, start, n) {
      var k := SeenAt(disk, ver, start, n, At(disk, ver, start, n));
      assert Returns(disk, ver, start, k, n);
    }
  }

  /** A walk that never returns sees a new block in every step. */
  lemma {:induction false} SeenCount(disk: FooterMap, ver: nat, start: Block, n: nat)
    requires CurrentBelow(disk, ver, start, n) && !Loops(disk, ver, start)
    ensures |Seen(disk, ver, start, n)| == n && Seen(disk, ver, start, n) <= disk.Keys
  {
    if n > 0 {
      SeenCount(disk, ver, start, n - 1);
      SeenAgain(disk, ver, start, n - 1);
    }
  }

  lemma SubsetCount<T>(a: set<T>, b: set<T>)
    requires a <= b
    ensures |a| <= |b|
  {
    assert b == a + (b - a);
  }

  /** The walk ends exactly when it never comes back to a block. */
  lemma {:induction false} EndsIff(disk: FooterMap, ver: nat, start: Block)
    ensures Ends(disk, ver, start) <==> !Loops(disk, ver, start)
  {
    if Loops(disk, ver, start) {
      var i: nat, j: nat :| Returns(disk, ver, start, i, j);
      forall n: nat ensures Current(disk, ver, At(disk, ver, start, n)) { LoopGoesOn(disk, ver, start, i, j, n); }
    } else if !Ends(disk, ver, start) {
      var n := |disk.Keys| + 1;
      SeenCount(disk, ver, start, n);
      SubsetCount(Seen(disk, ver, start, n), disk.Keys);
    }
  }

  /** The blocks walked, in order. */
  function Walked(disk: FooterMap, ver: nat, start: Block, n: nat): seq<Block> {
    seq(n, k requires 0 <= k < n => At(disk, ver, start, k))
  }

  lemma {:induction false} FirstEnd(disk: FooterMap, ver: nat, start: Block, m: nat) returns (n: nat)
    requires !Current(disk, ver, At(disk, ver, start, m))
    ensures n <= m && !Current(disk, ver, At(disk, ver, start, n)) && CurrentBelow(disk, ver, start, n)
  {
    n := m;
    if k: nat :| k < m && !Current(disk, ver, At(disk, ver, start, k)) {
      n := FirstEnd(disk, ver, start, k);
    }
  }

  /** A walk that ends runs along a chain, so the loop of find_fsync_dnodes follows it to its end. */
  lemma {:induction false} WalkIsChain(disk: FooterMap, ver: nat, start: Block) returns (n: nat)
    requires Ends(disk, ver, start)
    ensures IsChain(disk, ver, start, Walked(disk, ver, start, n), At(disk, ver, start, n))
  {
    var m: nat :| !Current(disk, ver, At(disk, ver, start, m));
    n := FirstEnd(disk, ver, start, m);
    forall i: nat | i < n ensures LinkAt(disk, ver, Walked(disk, ver, start, n), At(disk, ver, start, n), i) {
      assert Current(disk, ver, At(disk, ver, start, i)) && At(disk, ver, start, i + 1) == disk[At(disk, ver, start, i)].next;
    }
  }

  lemma {:induction false} ChainWalked(disk: FooterMap, ver: nat, start: Block, chain: seq<Block>, end: Block, n: nat)
    requires IsChain(disk, ver, start, chain, end) && n <= |chain|
    ensures At(disk, ver, start, n) == if n < |chain| then chain[n] else end
  {
    if n > 0 {
      ChainWalked(disk, ver, start, chain, end, n - 1);
      assert LinkAt(disk, ver, chain, end, n - 1);
    }
  }

  lemma {:induction false} ChainEndsWalk(disk: FooterMap, ver: nat, start: Block, chain: seq<Block>, end: Block)
    requires IsChain(disk, ver, start, chain, end)
    ensures Ends(disk, ver, start)
  {
    ChainWalked(disk, ver, start, chain, end, |chain|);
    assert !Current(disk, ver, At(disk, ver, start, |chain|));
  }

  /** After a run whose walk is right, it ends. */
  lemma {:induction false} CleanRunEnds(m: Machine, steps: seq<Step>)
    requires Good(m) && EndClean(After(m, steps))
    ensures var r := After(m, steps); Ends(r.disk, r.ver, r.start)
  {
    var r := After(m, steps);
    RecoveryFindsTheRunIff(m, steps);
    ChainEndsWalk(r.disk, r.ver, r.start, WarmSince(m, m.chain, steps), NextBlock(r.s, WARM_NODE));
  }

  // ----- a run after which it does not end -----

  /** r comes from m in n steps. */
  ghost predicate ReachesIn(m: Machine, r: Machine, n: nat)
    decreases n
  {
    if n == 0 then r == m else exists q: Machine :: ReachesIn(m, q, n - 1) && Successor(q, r)
  }

  ghost predicate Successor(q: Machine, r: Machine) {
    exists st: Step :: StepTo(q, st, r)
  }

  ghost predicate StepTo(q: Machine, st: Step, r: Machine) {
    Good(q) && CanDo(q, st) && r == Do(q, st)
  }

  ghost predicate Reaches(m: Machine, r: Machine) {
    exists n: nat :: ReachesIn(m, r, n)
  }

  lemma ReachesItself(m: Machine)
    ensures Reaches(m, m)
  {
    assert ReachesIn(m, m, 0);
  }

  lemma ReachesNext(m: Machine, q: Machine, st: Step, r: Machine)
    requires Reaches(m, q) && StepTo(q, st, r)
    ensures Reaches(m, r)
  {
    var n: nat :| ReachesIn(m, q, n);
    assert Successor(q, r);
    assert ReachesIn(m, r, n + 1);
  }

  /** A warm node block is written, and the log announces `next`; of the free segments at most that of `next` is taken. */
  ghost predicate Wrote(m: Machine, r: Machine, next: Block)
    requires |m.s.logs| == NR_LOGS == |r.s.logs|
  {
    && r.s.v == m.s.v && |m.s.free.used| == m.s.v.segs == |r.s.free.used| && !r.s.logs[WARM_NODE].ssr && NextBlock(r.s, WARM_NODE) == next
    && r.disk == m.disk[NextBlock(m.s, WARM_NODE) := Footer(m.ver, next, 0, false)]
    && r.ver == m.ver && r.start == m.start && r.cp == m.cp
    && forall k :: 0 <= k < m.s.v.segs && k != next.seg ==> r.s.free.used[k] == m.s.free.used[k]
  }

  lemma OpenLegal(s: State, k: nat)
    requires Inv(s) && !s.logs[WARM_NODE].ssr && s.logs[WARM_NODE].blkoff + 1 == s.v.blocksPerSeg
    requires k < s.v.segs && !s.free.used[k]
    ensures Enabled(s, Alloc(WARM_NODE, NoBlock, Open(k)))
    ensures var r := Apply(s, Alloc(WARM_NODE, NoBlock, Open(k)));
      |r.logs| == NR_LOGS && r.logs[WARM_NODE] == Log(k, 0, false, s.v.ZoneOf(k)) && r.free == SetInuse(s.v, s.free, k)
  {
    MidLogs(s, WARM_NODE, NoBlock);
    assert Legal(Mid(s, WARM_NODE, NoBlock), WARM_NODE, Open(k));
    AllocateSit(s, WARM_NODE, NoBlock, Open(k));
  }

  lemma KeepFree(s: State)
    requires Inv(s) && Enabled(s, Alloc(WARM_NODE, NoBlock, Keep))
    ensures Apply(s, Alloc(WARM_NODE, NoBlock, Keep)).free == s.free
  {
    MidLogs(s, WARM_NODE, NoBlock);
    AllocateSit(s, WARM_NODE, NoBlock, Keep);
  }

  /** A state of a run that began at m0. */
  ghost predicate Warm(m0: Machine, m: Machine) {
    Good(m) && Reaches(m0, m)
  }

  lemma WriteOpen(m0: Machine, m: Machine, k: nat) returns (r: Machine)
    requires Warm(m0, m) && m.s.logs[WARM_NODE].blkoff + 1 == m.s.v.blocksPerSeg && k < m.s.v.segs && !m.s.free.used[k]
    ensures Warm(m0, r) && |m.s.logs| == NR_LOGS == |r.s.logs| && Wrote(m, r, Block(k, 0))
  {
    OpenLegal(m.s, k);
    SetInuseOk(m.s.v, m.s.free, k);
    var st := DoWrite(WARM_NODE, NoBlock, Open(k), 0, false);
    r := Do(m, st);
    ReachesNext(m0, m, st, r);
  }

  lemma WriteKeep(m0: Machine, m: Machine) returns (r: Machine)
    requires Warm(m0, m) && m.s.logs[WARM_NODE].blkoff + 1 < m.s.v.blocksPerSeg
    ensures Warm(m0, r) && |m.s.logs| == NR_LOGS == |r.s.logs|
    ensures Wrote(m, r, Block(m.s.logs[WARM_NODE].segno, m.s.logs[WARM_NODE].blkoff + 1))
  {
    r := WarmWriteDone(m, false);
    KeepFree(m.s);
    ReachesNext(m0, m, WarmWrite(false), r);
  }

  /** The blocks o .. n of a segment lead one to the next, and the last one to `next`. */
  ghost predicate SegLinked(disk: FooterMap, ver: nat, seg: nat, o: nat, n: nat, next: Block) {
    forall x: nat :: o <= x < n ==>
      Current(disk, ver, Block(seg, x)) && disk[Block(seg, x)].next == if x + 1 < n then Block(seg, x + 1) else next
  }

  /** Only blocks of one segment, from `o` on, have changed. */
  ghost predicate Elsewhere(before: FooterMap, after: FooterMap, seg: nat, o: nat) {
    forall b: Block :: b.seg != seg || b.off < o ==> (b in before <==> b in after) && (b in before ==> after[b] == before[b])
  }

  lemma OneMoreLinked(before: FooterMap, mid: FooterMap, after: FooterMap, ver: nat, seg: nat, o: nat, n: nat, next: Block)
    requires o + 1 < n && mid == before[Block(seg, o) := Footer(ver, Block(seg, o + 1), 0, false)]
    requires SegLinked(after, ver, seg, o + 1, n, next) && Elsewhere(mid, after, seg, o + 1)
    ensures SegLinked(after, ver, seg, o, n, next) && Elsewhere(before, after, seg, o)
  {
    forall x: nat | o <= x < n
      ensures Current(after, ver, Block(seg, x)) && after[Block(seg, x)].next == if x + 1 < n then Block(seg, x + 1) else next
    {
      if x == o { assert Block(seg, o) in mid; }
    }
  }

  lemma LastLinked(before: FooterMap, after: FooterMap, ver: nat, seg: nat, o: nat, next: Block)
    requires after == before[Block(seg, o) := Footer(ver, next, 0, false)]
    ensures SegLinked(after, ver, seg, o, o + 1, next) && Elsewhere(before, after, seg, o)
  {
  }

  /** What filling the segment of the log leaves. */
  ghost predicate Filled(m: Machine, r: Machine, k: nat)
    requires |m.s.logs| == NR_LOGS == |r.s.logs|
  {
    var b := NextBlock(m.s, WARM_NODE);
    && NextBlock(r.s, WARM_NODE) == Block(k, 0) && r.ver == m.ver && r.start == m.start && r.cp == m.cp && r.s.v == m.s.v
    && SegLinked(r.disk, m.ver, b.seg, b.off, m.s.v.blocksPerSeg, Block(k, 0)) && Elsewhere(m.disk, r.disk, b.seg, b.off)
  }

  lemma WroteLast(m: Machine, r: Machine, k: nat)
    requires |m.s.logs| == NR_LOGS == |r.s.logs| && Wrote(m, r, Block(k, 0))
    requires m.s.logs[WARM_NODE].blkoff + 1 == m.s.v.blocksPerSeg
    ensures Filled(m, r, k)
  {
    LastLinked(m.disk, r.disk, m.ver, m.s.logs[WARM_NODE].segno, m.s.logs[WARM_NODE].blkoff, Block(k, 0));
  }

  lemma WroteOne(m: Machine, q: Machine, r: Machine, k: nat)
    requires |m.s.logs| == |q.s.logs| == NR_LOGS == |r.s.logs| && m.s.logs[WARM_NODE].blkoff + 1 < m.s.v.blocksPerSeg
    requires Wrote(m, q, Block(m.s.logs[WARM_NODE].segno, m.s.logs[WARM_NODE].blkoff + 1)) && Filled(q, r, k)
    ensures Filled(m, r, k)
  {
    OneMoreLinked(m.disk, q.disk, r.disk, m.ver, m.s.logs[WARM_NODE].segno, m.s.logs[WARM_NODE].blkoff,
                  m.s.v.blocksPerSeg, Block(k, 0));
  }

  lemma HasLogs(m: Machine)
    requires Good(m)
    ensures |m.s.logs| == NR_LOGS && m.s.logs[WARM_NODE].blkoff < m.s.v.blocksPerSeg && !m.s.logs[WARM_NODE].ssr
    ensures |m.s.free.used| == m.s.v.segs && m.s.logs[WARM_NODE].segno < m.s.v.segs
    ensures m.s.free.used[m.s.logs[WARM_NODE].segno] && m.start == NextBlock(m.cp, WARM_NODE)
  {
    LogsKnown(m.s, WARM_NODE);
  }

  /** The warm node log fills its segment and goes on in segment k. */
  lemma {:induction false} Fill(m0: Machine, m: Machine, k: nat, left: nat) returns (r: Machine)
    requires Warm(m0, m) && k < m.s.v.segs == |m.s.free.used| && !m.s.free.used[k]
    requires |m.s.logs| == NR_LOGS && m.s.logs[WARM_NODE].blkoff + 1 + left == m.s.v.blocksPerSeg
    requires m.s.logs[WARM_NODE].segno != k
    ensures Warm(m0, r) && |r.s.logs| == NR_LOGS && Filled(m, r, k)
    decreases left
  {
    if left == 0 {
      r := WriteOpen(m0, m, k);
      WroteLast(m, r, k);
    } else {
      var q := WriteKeep(m0, m);
      r := Fill(m0, q, k, left - 1);
      WroteOne(m, q, r, k);
    }
  }

  /** Through a linked segment to the block behind it. */
  lemma {:induction false} WalkSegment(disk: FooterMap, ver: nat, seg: nat, n: nat, next: Block, k: nat)
    requires SegLinked(disk, ver, seg, 0, n, next) && k <= n && 0 < n
    ensures At(disk, ver, Block(seg, 0), k) == if k < n then Block(seg, k) else next
  {
    if k > 0 { WalkSegment(disk, ver, seg, n, next, k - 1); }
  }

  /** Two full segments that lead to each other, and a way into them. */
  lemma {:induction false} TwoSegmentsLoop(disk: FooterMap, ver: nat, start: Block, a: nat, b: nat, n: nat)
    requires 0 < n && Current(disk, ver, start) && disk[start].next == Block(b, 0)
    requires SegLinked(disk, ver, a, 0, n, Block(b, 0)) && SegLinked(disk, ver, b, 0, n, Block(a, 0))
    ensures Loops(disk, ver, start)
  {
    forall k: nat | k < 1 + 2 * n ensures Current(disk, ver, At(disk, ver, start, k)) {
      TwoSegmentsAt(disk, ver, start, a, b, n, k);
    }
    TwoSegmentsAt(disk, ver, start, a, b, n, 1);
    TwoSegmentsAt(disk, ver, start, a, b, n, 1 + 2 * n);
    assert Returns(disk, ver, start, 1, 1 + 2 * n);
  }

  lemma TwoSegmentsAt(disk: FooterMap, ver: nat, start: Block, a: nat, b: nat, n: nat, k: nat)
    requires 0 < n && Current(disk, ver, start) && disk[start].next == Block(b, 0) && k <= 1 + 2 * n
    requires SegLinked(disk, ver, a, 0, n, Block(b, 0)) && SegLinked(disk, ver, b, 0, n, Block(a, 0))
    ensures At(disk, ver, start, k) == if k == 0 then start else if k < 1 + n then Block(b, k - 1)
      else if k < 1 + 2 * n then Block(a, k - 1 - n) else Block(b, 0)
  {
    assert At(disk, ver, start, 1) == Block(b, 0) by { assert At(disk, ver, start, 0) == start; }
    if 0 < k <= n {
      AtSum(disk, ver, start, 1, k - 1);
      WalkSegment(disk, ver, b, n, Block(a, 0), k - 1);
    } else if n < k {
      AtSum(disk, ver, start, 1, n);
      WalkSegment(disk, ver, b, n, Block(a, 0), n);
      AtSum(disk, ver, start, 1 + n, k - 1 - n);
      WalkSegment(disk, ver, a, n, Block(b, 0), k - 1 - n);
    }
  }

  /** What the two fills leave on disk. */
  lemma TwoFills(d1: FooterMap, d2: FooterMap, d4: FooterMap, d5: FooterMap, ver: nat, start: Block, a: nat, b: nat, n: nat)
    requires 0 < n && a != b && start.seg != a && start.seg != b
    requires SegLinked(d2, ver, a, 0, n, Block(b, 0)) && Elsewhere(d1, d2, a, 0)
    requires d4 == d2[start := Footer(ver, Block(b, 0), 0, false)]
    requires SegLinked(d5, ver, b, 0, n, Block(a, 0)) && Elsewhere(d4, d5, b, 0)
    ensures Loops(d5, ver, start)
  {
    assert start in d4 && Current(d5, ver, start) && d5[start].next == Block(b, 0);
    forall x: nat | x < n
      ensures Current(d5, ver, Block(a, x)) && d5[Block(a, x)].next == if x + 1 < n then Block(a, x + 1) else Block(b, 0)
    {
      assert Current(d2, ver, Block(a, x)) && Block(a, x) in d4;
    }
    TwoSegmentsLoop(d5, ver, start, a, b, n);
  }

  /** The warm node log leaves a full segment for a free one, and fills that. */
  lemma OneRound(m0: Machine, m: Machine, a: nat, b: nat) returns (one: Machine, r: Machine)
    requires Warm(m0, m) && m.s.logs[WARM_NODE].blkoff + 1 == m.s.v.blocksPerSeg
    requires a < m.s.v.segs && b < m.s.v.segs && a != b && !m.s.free.used[a] && !m.s.free.used[b]
    ensures Warm(m0, r) && |m.s.logs| == NR_LOGS == |one.s.logs| == |r.s.logs|
    ensures Wrote(m, one, Block(a, 0)) && Filled(one, r, b)
  {
    one := WriteOpen(m0, m, a);
    HasLogs(one);
    r := Fill(m0, one, b, one.s.v.blocksPerSeg - 1);
  }

  lemma BackToStart(m0: Machine, m: Machine) returns (r: Machine)
    requires Warm(m0, m)
    ensures Warm(m0, r) && r == Reboot(m)
  {
    r := RebootDone(m);
    ReachesNext(m0, m, DoReboot, r);
  }

  /**
   * From any mounted machine whose warm node log has one block left and that has two free segments a and b:
   * the log fills a and goes on to b, all is lost in a crash with nothing fsynced, and then it fills b first
   * and goes on to a.  After the next crash the walk goes round through both segments for ever.
   */
  lemma {:induction false} LostSegmentsLoop(m: Machine, a: nat, b: nat) returns (r: Machine)
    requires Good(m) && m.s == m.cp && m.chain == [] && m.s.logs[WARM_NODE].blkoff + 1 == m.s.v.blocksPerSeg
    requires a < m.s.v.segs && b < m.s.v.segs && a != b && !m.s.free.used[a] && !m.s.free.used[b]
    ensures Good(r) && Reaches(m, r) && Loops(r.disk, r.ver, r.start)
  {
    HasLogs(m);
    ReachesItself(m);
    var one, two := OneRound(m, m, a, b);
    var back := BackToStart(m, two);
    var four;
    four, r := OneRound(m, back, b, a);
    TwoFills(one.disk, two.disk, four.disk, r.disk, m.ver, m.start, a, b, m.s.v.blocksPerSeg);
  }

  /** No valid block, and no log. */
  ghost predicate Unused(v: Volume, img: Image, k: nat)
    requires v.Valid() && k < |img.sit|
  {
    Entries(img)[k].valid == 0 && !IsCur(Logs(v, img), k)
  }

  lemma FreshMachine(v: Volume, img: Image, a: nat, b: nat) returns (m: Machine)
    requires ImageOk(v, img) && !img.logs[WARM_NODE].ssr && img.logs[WARM_NODE].blkoff + 1 == v.blocksPerSeg
    requires a < v.segs && b < v.segs && Unused(v, img, a) && Unused(v, img, b)
    ensures Good(m) && DiskOk(m) && m.s == m.cp && m.chain == [] && m.disk == map[] && m.s.v == v
    ensures m.s.logs[WARM_NODE].blkoff + 1 == m.s.v.blocksPerSeg && !m.s.free.used[a] && !m.s.free.used[b]
  {
    m := Mounted(v, img, map[], 1);
    MountedIsGood(v, img, map[], 1);
    MountedFree(v, img, a);
    MountedFree(v, img, b);
  }

  /** A segment without valid blocks or a log is free after the mount. */
  lemma MountedFree(v: Volume, img: Image, k: nat)
    requires ImageOk(v, img) && k < v.segs && Unused(v, img, k)
    ensures Mount(v, img).v == v && Mount(v, img).logs == Logs(v, img) && !Mount(v, img).free.used[k]
  {
    LogsInRange(v, img);
    assert Logs(v, img)[..NR_LOGS] == Logs(v, img);
  }

  lemma SmallUnused(k: nat)
    requires k == 6 || k == 7
    ensures SmallVolume().Valid() && Unused(SmallVolume(), SmallImage(7), k)
  {
    SmallEntries(7, k);
    forall t | 0 <= t < NR_LOGS ensures Logs(SmallVolume(), SmallImage(7))[t].segno != k { SmallEntries(7, t); }
  }

  lemma LastBlockExample() returns (v: Volume, img: Image)
    ensures ImageOk(v, img) && !img.logs[WARM_NODE].ssr && img.logs[WARM_NODE].blkoff + 1 == v.blocksPerSeg
    ensures v.segs == 8 && Unused(v, img, 6) && Unused(v, img, 7)
  {
    SmallImageOk(7);
    SmallUnused(6);
    SmallUnused(7);
    v, img := SmallVolume(), SmallImage(7);
  }

  /** There is such a machine. */
  lemma {:induction false} SmallMachineLoops() returns (m: Machine, r: Machine)
    ensures Good(m) && DiskOk(m) && m.s == m.cp && m.chain == [] && m.disk == map[]
    ensures Good(r) && Reaches(m, r) && Loops(r.disk, r.ver, r.start)
  {
    var v, img := LastBlockExample();
    m := FreshMachine(v, img, 6, 7);
    r := LostSegmentsLoop(m, 6, 7);
  }
}
