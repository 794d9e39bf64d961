/**
 * The chain of warm node blocks written since the last checkpoint (segment.c, node.h, recovery.c).
 * Every node block carries the checkpoint version and, in next_blkaddr, the place its log will
 * write next; roll-forward recovery walks the warm node log along those links.
 */
module RollForward {
  import opened Bitmaps
  import opened Geometry
  import opened DirtySeglist
  import opened SitInfo
  import opened SegmentState
  import opened SegmentRuns
  import opened SegmentMount

  /** What a node block on disk tells recovery; `fsynced` and `ino` are its footer flags. */
  datatype Footer = Footer(ver: nat, next: Block, ino: nat, fsynced: bool)

  /** The disk holds all submitted blocks; blocks without an entry were never node blocks. */
  datatype Machine = Machine(
    s: State, disk: map<Block, Footer>, ver: nat,
    written: set<Block>,   // every block allocated since the last checkpoint
    start: Block,          // where the warm node log stood at the last checkpoint
    chain: seq<Block>,     // warm node blocks written since, in order
    cp: State)             // what a mount of the last checkpoint gives

  // ----- steps -----

  /** do_write_page: allocate, then submit the page; node pages get a footer first. */
  ghost function Write(m: Machine, t: nat, prev: OldBlock, c: Choice, ino: nat, fsynced: bool): Machine
    requires Inv(m.s) && Enabled(m.s, Alloc(t, prev, c))
  {
    var b := NextBlock(m.s, t);
    var r := Apply(m.s, Alloc(t, prev, c));
    Machine(r,
            if t >= HOT_NODE then m.disk[b := Footer(m.ver, NextBlock(r, t), ino, fsynced)] else m.disk - {b},
            m.ver, m.written + {b}, m.start,
            if t == WARM_NODE then m.chain + [b] else m.chain, m.cp)
  }

  ghost function Forget(m: Machine, b: Block): Machine
    requires Inv(m.s) && Enabled(m.s, Drop(b))
  {
    m.(s := Apply(m.s, Drop(b)))
  }

  /** write_checkpoint: the version moves on and a new chain starts at the warm node log. */
  ghost function Commit_(m: Machine): Machine
    requires Inv(m.s)
  {
    CheckpointRemounts(m.s);
    Machine(Apply(m.s, Commit), m.disk, m.ver + 1, {}, NextBlock(m.s, WARM_NODE), [],
            Mount(m.s.v, ImageOf(Checkpoint(m.s))))
  }

  /**
   * A crash and a mount that finds nothing fsynced: recover_fsync_data then writes no checkpoint, so the
   * version stays, and the disk keeps the blocks written since.
   */
  ghost function Reboot(m: Machine): Machine {
    m.(s := m.cp, written := {}, chain := [])
  }

  /** The machine after mounting a checkpoint of version `ver`. */
  ghost function Mounted(v: Volume, img: Image, disk: map<Block, Footer>, ver: nat): Machine
    requires ImageOk(v, img)
  {
    var s := Mount(v, img);
    Machine(s, disk, ver, {}, NextBlock(s, WARM_NODE), [], s)
  }

  // ----- invariant -----

  /** Blocks written in this epoch lie in segments in use, behind the LFS log that owns them. */
  ghost predicate Behind(m: Machine, b: Block)
    requires Base(m.s)
  {
    && InMain(m.s.v, b) && m.s.free.used[b.seg]
    && forall t :: 0 <= t < NR_LOGS && m.s.logs[t].segno == b.seg && !m.s.logs[t].ssr ==> b.off < m.s.logs[t].blkoff
  }

  ghost predicate WarmSeg(s: State, seg: nat)
    requires Base(s)
  {
    seg < s.v.segs && s.sit.se[seg].typ == WARM_NODE && s.free.used[seg]
  }

  /** The next warm node block, or where the warm log stands after the last one. */
  ghost function ChainAt(m: Machine, i: nat): Block
    requires |m.s.logs| == NR_LOGS && i <= |m.chain|
  {
    if i < |m.chain| then m.chain[i] else NextBlock(m.s, WARM_NODE)
  }

  ghost predicate Linked(m: Machine, i: nat)
    requires |m.s.logs| == NR_LOGS && i < |m.chain|
  {
    m.chain[i] in m.disk && m.disk[m.chain[i]].ver == m.ver && m.disk[m.chain[i]].next == ChainAt(m, i + 1)
  }

  /** No block carries a later version. */
  ghost predicate Stamped(m: Machine) {
    forall b :: b in m.disk ==> m.disk[b].ver <= m.ver
  }

  /** Only blocks written since the last checkpoint, and not lost in a crash, carry the current version. */
  ghost predicate DiskOk(m: Machine) {
    Stamped(m) && forall b :: b in m.disk && m.disk[b].ver == m.ver ==> b in m.written
  }

  ghost predicate CpOk(m: Machine) {
    Inv(m.cp) && m.cp.v == m.s.v && !m.cp.logs[WARM_NODE].ssr && m.start == NextBlock(m.cp, WARM_NODE)
  }

  ghost predicate WarmBlock(m: Machine, b: Block)
    requires Base(m.s)
  {
    b in m.written && WarmSeg(m.s, b.seg)
  }

  ghost predicate ChainOk(m: Machine)
    requires Base(m.s)
  {
    && (forall b :: b in m.chain ==> WarmBlock(m, b))
    && (forall i :: 0 <= i < |m.chain| ==> Linked(m, i))
    && (forall i, j :: 0 <= i < j < |m.chain| ==> m.chain[i] != m.chain[j])
  }

  ghost predicate Good(m: Machine) {
    && Inv(m.s)
    && !m.s.logs[WARM_NODE].ssr
    && (forall b :: b in m.written ==> Behind(m, b))
    && ChainOk(m) && CpOk(m)
    && m.start == ChainAt(m, 0)
  }

  // ----- every step keeps it -----

  lemma LogsKnown(s: State, t: nat)
    requires Inv(s) && t < NR_LOGS
    ensures s.logs[t].segno < s.v.segs && s.logs[t].blkoff < s.v.blocksPerSeg
    ensures s.sit.se[s.logs[t].segno].typ == t && s.free.used[s.logs[t].segno]
  {
    assert LogOk(s.v, s.sit.se, s.logs[t], t);
    assert IsCur(s.logs, s.logs[t].segno) && SegOk(s, s.logs[t].segno);
  }

  /** A block written this epoch stays behind, or out of reach of, every LFS log. */
  lemma WriteBehind(m: Machine, t: nat, prev: OldBlock, c: Choice, ino: nat, fsynced: bool, b: Block)
    requires Good(m) && Enabled(m.s, Alloc(t, prev, c))
    requires b in m.written || b == NextBlock(m.s, t)
    ensures Behind(Write(m, t, prev, c, ino, fsynced), b)
  {
    var r := Apply(m.s, Alloc(t, prev, c));
    AllocateLogs(m.s, t, prev, c);
    AllocateUsed(m.s, t, prev, c);
    LogsKnown(m.s, t);
    if !c.Keep? { ChoiceIsNew(m.s, t, prev, c); }
    assert m.s.free.used[b.seg];
    assert IsCur(m.s.logs, m.s.logs[t].segno);
    forall i | 0 <= i < NR_LOGS && r.logs[i].segno == b.seg && !r.logs[i].ssr ensures b.off < r.logs[i].blkoff {
      if i != t { assert m.s.logs[i] == r.logs[i]; }
    }
  }

  lemma WarmSegKept(m: Machine, t: nat, prev: OldBlock, c: Choice, seg: nat)
    requires Good(m) && Enabled(m.s, Alloc(t, prev, c)) && WarmSeg(m.s, seg)
    ensures WarmSeg(Apply(m.s, Alloc(t, prev, c)), seg)
  {
    AllocateTyp(m.s, t, prev, c, seg);
    AllocateUsed(m.s, t, prev, c);
  }

  /** No allocation of this epoch lands on a block of the chain. */
  lemma ChainNotHit(m: Machine, t: nat, i: nat)
    requires Good(m) && t < NR_LOGS && i < |m.chain|
    ensures m.chain[i] != NextBlock(m.s, t)
  {
    LogsKnown(m.s, t);
    assert WarmBlock(m, m.chain[i]) && Behind(m, m.chain[i]);
  }

  /** r is m after block b was written by log t. */
  ghost predicate Wrote(m: Machine, r: Machine, t: nat, b: Block) {
    && |m.s.logs| == NR_LOGS == |r.s.logs| && r.ver == m.ver && r.start == m.start && r.cp == m.cp
    && b == NextBlock(m.s, if t < NR_LOGS then t else 0)
    && r.written == m.written + {b}
    && (r.disk == m.disk - {b} || exists f: Footer :: f.ver == m.ver && r.disk == m.disk[b := f])
    && r.chain == (if t == WARM_NODE then m.chain + [b] else m.chain)
    && (t != WARM_NODE ==> NextBlock(r.s, WARM_NODE) == NextBlock(m.s, WARM_NODE))
  }

  lemma WriteIsWrote(m: Machine, t: nat, prev: OldBlock, c: Choice, ino: nat, fsynced: bool)
    requires Inv(m.s) && Enabled(m.s, Alloc(t, prev, c)) && !m.s.logs[WARM_NODE].ssr
    ensures Wrote(m, Write(m, t, prev, c, ino, fsynced), t, NextBlock(m.s, t))
  {
    WarmStaysLfs(m.s, t, prev, c);
    var r := Write(m, t, prev, c, ino, fsynced);
    var f := Footer(m.ver, NextBlock(r.s, t), ino, fsynced);
    assert f.ver == m.ver && (t >= HOT_NODE ==> r.disk == m.disk[NextBlock(m.s, t) := f]);
  }

  lemma LinkKept(m: Machine, r: Machine, t: nat, b: Block, i: nat)
    requires Wrote(m, r, t, b) && i < |m.chain| && m.chain[i] != b && Linked(m, i)
    ensures Linked(r, i)
  {
  }

  lemma StartKept(m: Machine, r: Machine, t: nat, b: Block)
    requires Wrote(m, r, t, b) && m.start == ChainAt(m, 0)
    ensures r.start == ChainAt(r, 0)
  {
  }

  lemma DiskKept(m: Machine, r: Machine, t: nat, b: Block)
    requires Wrote(m, r, t, b)
    ensures Stamped(m) ==> Stamped(r)
    ensures DiskOk(m) ==> DiskOk(r)
  {
  }

  lemma DistinctKept(m: Machine, r: Machine, t: nat, b: Block)
    requires Wrote(m, r, t, b) && b !in m.chain
    requires forall i, j :: 0 <= i < j < |m.chain| ==> m.chain[i] != m.chain[j]
    ensures forall i, j :: 0 <= i < j < |r.chain| ==> r.chain[i] != r.chain[j]
  {
  }

  lemma WriteLinkedNew(m: Machine, prev: OldBlock, c: Choice, ino: nat, fsynced: bool)
    requires Good(m) && Enabled(m.s, Alloc(WARM_NODE, prev, c))
    ensures Linked(Write(m, WARM_NODE, prev, c, ino, fsynced), |m.chain|)
  {
    AllocateLogs(m.s, WARM_NODE, prev, c);
  }

  lemma NextWarm(m: Machine)
    requires Good(m)
    ensures WarmSeg(m.s, NextBlock(m.s, WARM_NODE).seg)
  {
    LogsKnown(m.s, WARM_NODE);
  }

  lemma WriteWarm(m: Machine, t: nat, prev: OldBlock, c: Choice, ino: nat, fsynced: bool, b: Block)
    requires Good(m) && Enabled(m.s, Alloc(t, prev, c))
    requires b in m.chain || (t == WARM_NODE && b == NextBlock(m.s, t))
    ensures WarmBlock(Write(m, t, prev, c, ino, fsynced), b)
  {
    NextWarm(m);
    assert b in m.chain ==> WarmBlock(m, b);
    WarmSegKept(m, t, prev, c, b.seg);
  }

  lemma WarmStaysLfs(s: State, t: nat, prev: OldBlock, c: Choice)
    requires Inv(s) && Enabled(s, Alloc(t, prev, c)) && !s.logs[WARM_NODE].ssr
    ensures |Apply(s, Alloc(t, prev, c)).logs| == NR_LOGS && !Apply(s, Alloc(t, prev, c)).logs[WARM_NODE].ssr
    ensures t != WARM_NODE ==> NextBlock(Apply(s, Alloc(t, prev, c)), WARM_NODE) == NextBlock(s, WARM_NODE)
  {
    AllocateLogs(s, t, prev, c);
  }

  lemma WriteMissesChain(m: Machine, t: nat)
    requires Good(m) && t < NR_LOGS
    ensures NextBlock(m.s, t) !in m.chain
  {
    forall i | 0 <= i < |m.chain| ensures m.chain[i] != NextBlock(m.s, t) { ChainNotHit(m, t, i); }
  }

  lemma WriteAllLinked(m: Machine, r: Machine, t: nat, b: Block)
    requires Wrote(m, r, t, b) && b !in m.chain && forall i :: 0 <= i < |m.chain| ==> Linked(m, i)
    requires t == WARM_NODE ==> Linked(r, |m.chain|)
    ensures forall i :: 0 <= i < |r.chain| ==> Linked(r, i)
  {
    forall i | 0 <= i < |m.chain| ensures Linked(r, i) {
      LinkKept(m, r, t, b, i);
    }
  }

  lemma WriteAllWarm(m: Machine, t: nat, prev: OldBlock, c: Choice, ino: nat, fsynced: bool, r: Machine)
    requires Good(m) && Enabled(m.s, Alloc(t, prev, c)) && r == Write(m, t, prev, c, ino, fsynced)
    ensures forall b :: b in r.chain ==> WarmBlock(r, b)
  {
    forall b | b in r.chain ensures WarmBlock(r, b) {
      WriteWarm(m, t, prev, c, ino, fsynced, b);
    }
  }

  lemma WriteAllBehind(m: Machine, t: nat, prev: OldBlock, c: Choice, ino: nat, fsynced: bool)
    requires Good(m) && Enabled(m.s, Alloc(t, prev, c))
    ensures forall x :: x in m.written + {NextBlock(m.s, t)} ==> Behind(Write(m, t, prev, c, ino, fsynced), x)
  {
    forall x | x in m.written + {NextBlock(m.s, t)} ensures Behind(Write(m, t, prev, c, ino, fsynced), x) {
      WriteBehind(m, t, prev, c, ino, fsynced, x);
    }
  }

  lemma WriteChain(m: Machine, t: nat, prev: OldBlock, c: Choice, ino: nat, fsynced: bool)
    requires Good(m) && Enabled(m.s, Alloc(t, prev, c))
    ensures ChainOk(Write(m, t, prev, c, ino, fsynced))
  {
    var r, b := Write(m, t, prev, c, ino, fsynced), NextBlock(m.s, t);
    WriteIsWrote(m, t, prev, c, ino, fsynced);
    WriteMissesChain(m, t);
    if t == WARM_NODE { WriteLinkedNew(m, prev, c, ino, fsynced); }
    WriteAllLinked(m, r, t, b);
    WriteAllWarm(m, t, prev, c, ino, fsynced, r);
    DistinctKept(m, r, t, b);
  }

  lemma WriteStart(m: Machine, t: nat, prev: OldBlock, c: Choice, ino: nat, fsynced: bool)
    requires Inv(m.s) && Enabled(m.s, Alloc(t, prev, c)) && !m.s.logs[WARM_NODE].ssr && m.start == ChainAt(m, 0)
    ensures |Write(m, t, prev, c, ino, fsynced).s.logs| == NR_LOGS
    ensures m.start == ChainAt(Write(m, t, prev, c, ino, fsynced), 0)
  {
    WriteIsWrote(m, t, prev, c, ino, fsynced);
    StartKept(m, Write(m, t, prev, c, ino, fsynced), t, NextBlock(m.s, t));
  }

  lemma WriteKeeps(m: Machine, t: nat, prev: OldBlock, c: Choice, ino: nat, fsynced: bool)
    requires Good(m) && Enabled(m.s, Alloc(t, prev, c))
    ensures Good(Write(m, t, prev, c, ino, fsynced))
  {
    WarmStaysLfs(m.s, t, prev, c);
    WriteAllBehind(m, t, prev, c, ino, fsynced);
    WriteStart(m, t, prev, c, ino, fsynced);
    WriteChain(m, t, prev, c, ino, fsynced);
  }

  lemma ForgetTyp(m: Machine, b: Block, k: nat)
    requires Inv(m.s) && Enabled(m.s, Drop(b)) && k < m.s.v.segs
    ensures Forget(m, b).s.sit.se[k].typ == m.s.sit.se[k].typ
  {
    UpdateMaps(m.s, b, false, k);
  }

  lemma ForgetBehind(m: Machine, b: Block)
    requires Good(m) && Enabled(m.s, Drop(b))
    ensures forall x :: x in m.written ==> Behind(Forget(m, b), x)
  {
    forall x | x in m.written ensures Behind(Forget(m, b), x) { assert Behind(m, x); }
  }

  lemma ForgetChain(m: Machine, b: Block)
    requires Inv(m.s) && Enabled(m.s, Drop(b)) && ChainOk(m)
    ensures ChainOk(Forget(m, b))
  {
    var r := Forget(m, b);
    forall x | x in r.chain ensures WarmBlock(r, x) {
      assert WarmBlock(m, x);
      ForgetTyp(m, b, x.seg);
    }
    forall i | 0 <= i < |r.chain| ensures Linked(r, i) { assert Linked(m, i); }
  }

  lemma ForgetKeeps(m: Machine, b: Block)
    requires Good(m) && Enabled(m.s, Drop(b))
    ensures Good(Forget(m, b))
  {
    ForgetBehind(m, b);
    ForgetChain(m, b);
  }

  lemma CommitCp(m: Machine, r: Machine)
    requires Inv(m.s) && r == Commit_(m)
    ensures Inv(r.s) && r.s.logs == m.s.logs && Inv(r.cp) && r.cp.logs == m.s.logs && r.cp.v == r.s.v
    ensures r.start == NextBlock(m.s, WARM_NODE) && r.chain == [] && r.written == {}
  {
    CheckpointRemounts(m.s);
  }

  /** Nothing written yet, and the log where the mount puts it. */
  lemma NewEpoch(r: Machine)
    requires Inv(r.s) && Inv(r.cp) && r.cp.logs == r.s.logs && r.cp.v == r.s.v && !r.s.logs[WARM_NODE].ssr
    requires r.start == NextBlock(r.s, WARM_NODE) && r.chain == [] && r.written == {}
    ensures Good(r)
  {
  }

  lemma CommitKeeps(m: Machine)
    requires Inv(m.s) && !m.s.logs[WARM_NODE].ssr
    ensures Good(Commit_(m))
  {
    CommitCp(m, Commit_(m));
    NewEpoch(Commit_(m));
  }

  lemma RebootKeeps(m: Machine)
    requires Good(m)
    ensures Good(Reboot(m))
  {
  }

  /** Any image whose warm node log is not in SSR mode mounts to a good machine, whatever the disk holds. */
  lemma MountedIsGood(v: Volume, img: Image, disk: map<Block, Footer>, ver: nat)
    requires ImageOk(v, img) && !img.logs[WARM_NODE].ssr
    ensures Good(Mounted(v, img, disk, ver))
    ensures (forall b :: b in disk ==> disk[b].ver < ver) ==> DiskOk(Mounted(v, img, disk, ver))
  {
    MountOk(v, img);
    NewEpoch(Mounted(v, img, disk, ver));
  }

  // ----- recovery -----

  /** Block i of the chain carries the version and names the block after it. */
  ghost predicate LinkAt(disk: map<Block, Footer>, ver: nat, chain: seq<Block>, end: Block, i: nat)
    requires i < |chain|
  {
    chain[i] in disk && disk[chain[i]].ver == ver && disk[chain[i]].next == if i + 1 < |chain| then chain[i + 1] else end
  }

  /** The links from `start` run through exactly the blocks of `chain`, all stamped `ver`, then stop. */
  ghost predicate IsChain(disk: map<Block, Footer>, ver: nat, start: Block, chain: seq<Block>, end: Block) {
    && (forall i: nat :: i < |chain| ==> LinkAt(disk, ver, chain, end, i))
    && start == (if chain == [] then end else chain[0])
    && (end in disk ==> disk[end].ver != ver)
  }

  /** The block the warm node log writes next does not carry the current version. */
  ghost predicate EndClean(m: Machine)
    requires |m.s.logs| == NR_LOGS
  {
    var end := NextBlock(m.s, WARM_NODE);
    end in m.disk ==> m.disk[end].ver != m.ver
  }

  /** Without stale blocks of the current version, nothing at the warm log's own position carries it. */
  lemma ChainEnds(m: Machine)
    requires Good(m) && DiskOk(m)
    ensures EndClean(m)
  {
    LogsKnown(m.s, WARM_NODE);
    var b := NextBlock(m.s, WARM_NODE);
    assert b in m.written ==> Behind(m, b);
  }

  lemma LinkedAt(m: Machine, i: nat)
    requires Good(m) && i < |m.chain|
    ensures LinkAt(m.disk, m.ver, m.chain, NextBlock(m.s, WARM_NODE), i)
  {
    assert Linked(m, i);
  }

  /**
   * In every reachable state the walk finds the warm node blocks written since the checkpoint, and only
   * them, exactly when the block the log would write next does not carry the current version.
   */
  lemma ChainIsCompleteIff(m: Machine)
    requires Good(m)
    ensures IsChain(m.disk, m.ver, m.start, m.chain, NextBlock(m.s, WARM_NODE)) <==> EndClean(m)
  {
    forall i: nat | i < |m.chain| ensures LinkAt(m.disk, m.ver, m.chain, NextBlock(m.s, WARM_NODE), i) {
      LinkedAt(m, i);
    }
  }

  /** walk[i] is fsynced for the inode, and no later block of the walk is. */
  ghost predicate LastFsynced(disk: map<Block, Footer>, walk: seq<Block>, ino: nat, i: nat)
    requires forall k :: 0 <= k < |walk| ==> walk[k] in disk
  {
    && i < |walk| && disk[walk[i]].fsynced && disk[walk[i]].ino == ino
    && forall k :: i < k < |walk| ==> !(disk[walk[k]].fsynced && disk[walk[k]].ino == ino)
  }

  /** Each inode with a fsynced block in the walk, and no other, has the last one of them. */
  ghost predicate LastOfEach(disk: map<Block, Footer>, walk: seq<Block>, inodes: map<nat, Block>) {
    && (forall k :: 0 <= k < |walk| ==> walk[k] in disk)
    && (forall k :: 0 <= k < |walk| && disk[walk[k]].fsynced ==> disk[walk[k]].ino in inodes)
    && forall ino :: ino in inodes ==> exists i: nat :: LastFsynced(disk, walk, ino, i) && inodes[ino] == walk[i]
  }

  /** One block more. */
  lemma LastOfEachStep(disk: map<Block, Footer>, walk: seq<Block>, inodes: map<nat, Block>, b: Block)
    requires LastOfEach(disk, walk, inodes) && b in disk
    ensures LastOfEach(disk, walk + [b], if disk[b].fsynced then inodes[disk[b].ino := b] else inodes)
  {
    var next, after := walk + [b], if disk[b].fsynced then inodes[disk[b].ino := b] else inodes;
    forall ino | ino in after ensures exists i: nat :: LastFsynced(disk, next, ino, i) && after[ino] == next[i] {
      if disk[b].fsynced && ino == disk[b].ino {
        assert LastFsynced(disk, next, ino, |walk|);
      } else {
        var i: nat :| LastFsynced(disk, walk, ino, i) && inodes[ino] == walk[i];
        assert LastFsynced(disk, next, ino, i);
      }
    }
  }

  /**
   * find_fsync_dnodes: from the checkpointed warm node position, follow next_blkaddr while the
   * version matches.  The walk visits exactly the chain, in order, and collects for each fsynced
   * inode its last fsynced block.
   */
  method FindFsyncDnodes(disk: map<Block, Footer>, start: Block, ver: nat, ghost chain: seq<Block>, ghost end: Block)
    returns (walk: seq<Block>, inodes: map<nat, Block>)
    requires IsChain(disk, ver, start, chain, end)
    ensures walk == chain && forall i: nat :: i < |chain| ==> chain[i] in disk
    ensures forall ino :: ino in inodes <==> exists i: nat :: LastFsynced(disk, chain, ino, i)
    ensures forall i: nat :: i < |chain| && disk[chain[i]].fsynced ==> disk[chain[i]].ino in inodes
    ensures forall ino, i: nat :: LastFsynced(disk, chain, ino, i) ==> ino in inodes && inodes[ino] == chain[i]
  {
    var blkaddr := start;
    walk, inodes := [], map[];
    while blkaddr in disk && disk[blkaddr].ver == ver
      invariant |walk| <= |chain| && walk == chain[..|walk|]
      invariant blkaddr == if |walk| < |chain| then chain[|walk|] else end
      invariant |walk| < |chain| ==> LinkAt(disk, ver, chain, end, |walk|)
      invariant LastOfEach(disk, walk, inodes)
      decreases |chain| - |walk|
    {
      var f := disk[blkaddr];
      LastOfEachStep(disk, walk, inodes, blkaddr);
      walk := walk + [blkaddr];
      if f.fsynced {
        inodes := inodes[f.ino := blkaddr];
      }
      blkaddr := f.next;
    }
    OneLast(disk, walk, inodes);
  }

  /** There is only one last block. */
  lemma OneLast(disk: map<Block, Footer>, walk: seq<Block>, inodes: map<nat, Block>)
    requires LastOfEach(disk, walk, inodes)
    ensures forall ino, i: nat :: LastFsynced(disk, walk, ino, i) ==> ino in inodes && inodes[ino] == walk[i]
  {
    forall ino, i: nat | LastFsynced(disk, walk, ino, i) ensures ino in inodes && inodes[ino] == walk[i] {
      var k: nat :| LastFsynced(disk, walk, ino, k) && inodes[ino] == walk[k];
      assert i == k;
    }
  }

  // ----- runs -----

  datatype Step =
    | DoWrite(t: nat, prev: OldBlock, c: Choice, ino: nat, fsynced: bool)
    | DoDrop(b: Block)
    | DoCommit
    | DoReboot

  ghost predicate CanDo(m: Machine, st: Step)
    requires Good(m)
  {
    match st
    case DoWrite(t, prev, c, _, _) => Enabled(m.s, Alloc(t, prev, c))
    case DoDrop(b) => Enabled(m.s, Drop(b))
    case DoCommit => true
    case DoReboot => true
  }

  ghost function Do(m: Machine, st: Step): (r: Machine)
    requires Good(m) && CanDo(m, st)
    ensures Good(r)
  {
    match st
    case DoWrite(t, prev, c, ino, fsynced) =>
      WriteKeeps(m, t, prev, c, ino, fsynced); Write(m, t, prev, c, ino, fsynced)
    case DoDrop(b) => ForgetKeeps(m, b); Forget(m, b)
    case DoCommit => CommitKeeps(m); Commit_(m)
    case DoReboot => RebootKeeps(m); Reboot(m)
  }

  /** The state after the longest executable prefix of a run. */
  ghost function After(m: Machine, steps: seq<Step>): (r: Machine)
    requires Good(m)
    ensures Good(r)
    decreases |steps|
  {
    if steps == [] || !CanDo(m, steps[0]) then m else After(Do(m, steps[0]), steps[1..])
  }

  /** The account of one step: the warm node block it adds, or a new beginning. */
  function Account(next: Block, acc: seq<Block>, st: Step): seq<Block> {
    match st
    case DoWrite(t, _, _, _, _) => if t == WARM_NODE then acc + [next] else acc
    case DoDrop(_) => acc
    case DoCommit => []
    case DoReboot => []
  }

  /** Warm node blocks written after the last checkpoint of a run and not lost, by an account of the steps alone. */
  ghost function WarmSince(m: Machine, acc: seq<Block>, steps: seq<Step>): seq<Block>
    requires Good(m)
    decreases |steps|
  {
    if steps == [] || !CanDo(m, steps[0]) then acc
    else WarmSince(Do(m, steps[0]), Account(NextBlock(m.s, WARM_NODE), acc, steps[0]), steps[1..])
  }

  lemma AccountIsChain(m: Machine, st: Step, r: Machine)
    requires Good(m) && CanDo(m, st) && r == Do(m, st)
    ensures r.chain == Account(NextBlock(m.s, WARM_NODE), m.chain, st)
  {
  }

  lemma {:induction false} ChainIsAccount(m: Machine, steps: seq<Step>)
    requires Good(m)
    ensures After(m, steps).chain == WarmSince(m, m.chain, steps)
    decreases |steps|
  {
    if steps != [] && CanDo(m, steps[0]) {
      AccountIsChain(m, steps[0], Do(m, steps[0]));
      ChainIsAccount(Do(m, steps[0]), steps[1..]);
    }
  }

  /**
   * After any run, crashes included, recovery's walk is the list of warm node blocks written since the
   * checkpoint exactly when the block behind the last of them does not carry the current version.
   */
  lemma {:induction false} RecoveryFindsTheRunIff(m: Machine, steps: seq<Step>)
    requires Good(m)
    ensures var r := After(m, steps);
      IsChain(r.disk, r.ver, r.start, WarmSince(m, m.chain, steps), NextBlock(r.s, WARM_NODE)) <==> EndClean(r)
  {
    ChainIsAccount(m, steps);
    ChainIsCompleteIff(After(m, steps));
  }

  // ----- runs in which it does -----

  lemma DiskOkStep(m: Machine, st: Step)
    requires Good(m) && CanDo(m, st)
    ensures Stamped(m) ==> Stamped(Do(m, st))
    ensures DiskOk(m) && !st.DoReboot? ==> DiskOk(Do(m, st))
    ensures Stamped(m) && st.DoCommit? ==> DiskOk(Do(m, st))
  {
    if st.DoWrite? {
      WriteIsWrote(m, st.t, st.prev, st.c, st.ino, st.fsynced);
      DiskKept(m, Do(m, st), st.t, NextBlock(m.s, st.t));
    }
  }

  /** No crash since the last checkpoint of the run; `calm` says so of the state it starts from. */
  ghost predicate CalmSince(calm: bool, steps: seq<Step>)
    decreases |steps|
  {
    if steps == [] then calm else CalmSince(steps[0].DoCommit? || (calm && !steps[0].DoReboot?), steps[1..])
  }

  ghost predicate AllDone(m: Machine, steps: seq<Step>)
    requires Good(m)
    decreases |steps|
  {
    steps == [] || (CanDo(m, steps[0]) && AllDone(Do(m, steps[0]), steps[1..]))
  }

  lemma {:induction false} CalmRunIsClean(m: Machine, calm: bool, steps: seq<Step>)
    requires Good(m) && Stamped(m) && (calm ==> DiskOk(m)) && AllDone(m, steps) && CalmSince(calm, steps)
    ensures DiskOk(After(m, steps))
    decreases |steps|
  {
    if steps != [] {
      DiskOkStep(m, steps[0]);
      CalmRunIsClean(Do(m, steps[0]), steps[0].DoCommit? || (calm && !steps[0].DoReboot?), steps[1..]);
    }
  }

  /**
   * So the walk is right after every run without a crash since the last checkpoint; and recovery takes a
   * checkpoint whenever it found something fsynced.
   */
  lemma {:induction false} RecoveryFindsTheRun(m: Machine, calm: bool, steps: seq<Step>)
    requires Good(m) && Stamped(m) && (calm ==> DiskOk(m)) && AllDone(m, steps) && CalmSince(calm, steps)
    ensures var r := After(m, steps);
      IsChain(r.disk, r.ver, r.start, WarmSince(m, m.chain, steps), NextBlock(r.s, WARM_NODE))
  {
    CalmRunIsClean(m, calm, steps);
    ChainEnds(After(m, steps));
    RecoveryFindsTheRunIff(m, steps);
  }

  // ----- a run in which it does not -----

  /** The log goes on in its segment. */
  ghost function WarmWrite(fsynced: bool): Step { DoWrite(WARM_NODE, NoBlock, Keep, 0, fsynced) }

  /** One warm node block written at the end of the log. */
  ghost predicate Grown(m: Machine, r: Machine, fsynced: bool)
    requires |m.s.logs| == NR_LOGS
  {
    var b := NextBlock(m.s, WARM_NODE);
    && |r.s.logs| == NR_LOGS && r.s.v == m.s.v && NextBlock(r.s, WARM_NODE) == Block(b.seg, b.off + 1)
    && r.disk == m.disk[b := Footer(m.ver, Block(b.seg, b.off + 1), 0, fsynced)]
    && r.chain == m.chain + [b] && r.ver == m.ver && r.start == m.start && r.cp == m.cp
  }

  /** The step is possible and leads to r. */
  ghost predicate Leads(m: Machine, st: Step, r: Machine)
    requires Good(m)
  {
    CanDo(m, st) && r == Do(m, st)
  }

  /** An LFS log with room for another block goes on in its segment. */
  lemma KeepLegal(s: State)
    requires Inv(s) && !s.logs[WARM_NODE].ssr && s.logs[WARM_NODE].blkoff + 1 < s.v.blocksPerSeg
    ensures Enabled(s, Alloc(WARM_NODE, NoBlock, Keep))
    ensures var r := Apply(s, Alloc(WARM_NODE, NoBlock, Keep));
      |r.logs| == NR_LOGS && r.v == s.v && NextBlock(r, WARM_NODE) == Block(s.logs[WARM_NODE].segno, s.logs[WARM_NODE].blkoff + 1)
  {
    MidLogs(s, WARM_NODE, NoBlock);
    assert Legal(Mid(s, WARM_NODE, NoBlock), WARM_NODE, Keep);
    AllocateLogs(s, WARM_NODE, NoBlock, Keep);
  }

  lemma WarmWriteDone(m: Machine, fsynced: bool) returns (r: Machine)
    requires Good(m) && m.s.logs[WARM_NODE].blkoff + 1 < m.s.v.blocksPerSeg
    ensures Good(r) && Leads(m, WarmWrite(fsynced), r) && Grown(m, r, fsynced)
  {
    KeepLegal(m.s);
    r := Do(m, WarmWrite(fsynced));
  }

  lemma RebootDone(m: Machine) returns (r: Machine)
    requires Good(m)
    ensures Good(r) && Leads(m, DoReboot, r) && r == Reboot(m)
  {
    r := Do(m, DoReboot);
  }

  /** What two lost blocks and one rewritten block leave on disk. */
  lemma WalkedOn(m: Machine, one: Machine, two: Machine, back: Machine, r: Machine)
    requires |m.s.logs| == |one.s.logs| == |back.s.logs| == NR_LOGS && m.s == m.cp && m.chain == []
    requires m.start == NextBlock(m.s, WARM_NODE)
    requires Grown(m, one, false) && Grown(one, two, false) && back == Reboot(two) && Grown(back, r, true)
    ensures r.chain == [m.start] && !EndClean(r)
    ensures var b := m.start; Block(b.seg, b.off + 2) !in m.disk ==>
      IsChain(r.disk, r.ver, r.start, [b, Block(b.seg, b.off + 1)], Block(b.seg, b.off + 2))
  {
  }

  /**
   * Two warm node blocks reach the disk and are lost in a crash with nothing fsynced; one is then written
   * and fsynced, and there is a second crash.  Recovery walks on from it into the second lost block.
   */
  lemma {:induction false} LostBlockIsWalked(m: Machine) returns (one: Machine, two: Machine, back: Machine, r: Machine)
    requires Good(m) && m.s == m.cp && m.chain == []
    requires m.s.logs[WARM_NODE].blkoff + 2 < m.s.v.blocksPerSeg
    ensures Leads(m, WarmWrite(false), one) && Good(one) && Leads(one, WarmWrite(false), two)
    ensures Good(two) && Leads(two, DoReboot, back) && Good(back) && Leads(back, WarmWrite(true), r)
    ensures Good(r) && r.chain == [m.start] && !EndClean(r)
    ensures var b := m.start; Block(b.seg, b.off + 2) !in m.disk ==>
      IsChain(r.disk, r.ver, r.start, [b, Block(b.seg, b.off + 1)], Block(b.seg, b.off + 2))
  {
    one := WarmWriteDone(m, false);
    two := WarmWriteDone(one, false);
    back := RebootDone(two);
    r := WarmWriteDone(back, true);
    WalkedOn(m, one, two, back, r);
  }

  /** Eight empty segments of eight blocks, one for each log and two free ones. */
  function SmallVolume(): Volume { Volume(8, 8, 1, 1, 2, 0) }

  /** All logs at the beginning of their segments, but for the warm node log. */
  function SmallImage(warmOff: nat): Image {
    Image(seq(8, k requires 0 <= k < 8 => RawSit(seq(8, _ => false), if k < NR_LOGS then k else 0)),
          seq(NR_LOGS, t requires 0 <= t < NR_LOGS => RawLog(t, if t == WARM_NODE then warmOff else 0, false)), 0)
  }

  lemma {:induction false} NoneValid(se: seq<SegEntry>, n: nat)
    requires n <= |se| && forall k :: 0 <= k < n ==> se[k].valid == 0
    ensures SumValid(se, 0, n) == 0
  {
    if n > 0 { NoneValid(se, n - 1); }
  }

  lemma SmallEntries(warmOff: nat, k: nat)
    requires k < 8
    ensures Entries(SmallImage(warmOff))[k]
      == SegEntry(0, seq(8, _ => false), 0, seq(8, _ => false), if k < NR_LOGS then k else 0)
    ensures k < NR_LOGS ==>
      Logs(SmallVolume(), SmallImage(warmOff))[k] == Log(k, if k == WARM_NODE then warmOff else 0, false, k)
  {
    OnesZero(seq(8, _ => false));
  }

  lemma SmallLogs(warmOff: nat, t: nat)
    requires t < NR_LOGS && warmOff < 8
    ensures SmallVolume().Valid()
    ensures LogOk(SmallVolume(), Entries(SmallImage(warmOff)), Logs(SmallVolume(), SmallImage(warmOff))[t], t)
  {
    SmallEntries(warmOff, t);
  }

  lemma SmallImageOk(warmOff: nat)
    requires warmOff < 8
    ensures ImageOk(SmallVolume(), SmallImage(warmOff)) && !SmallImage(warmOff).logs[WARM_NODE].ssr
  {
    var v, img := SmallVolume(), SmallImage(warmOff);
    forall k: nat | k < 8 ensures Entries(img)[k].valid == 0 { SmallEntries(warmOff, k); }
    forall t: nat | t < NR_LOGS ensures Logs(v, img)[t].segno == t && LogOk(v, Entries(img), Logs(v, img)[t], t) {
      SmallEntries(warmOff, t);
      SmallLogs(warmOff, t);
    }
    NoneValid(Entries(img), 8);
  }

  /** Any image whose warm node log has room for three blocks mounts to a machine that can lose a block so. */
  lemma RoomyImage(v: Volume, img: Image) returns (m: Machine)
    requires ImageOk(v, img) && !img.logs[WARM_NODE].ssr && img.logs[WARM_NODE].blkoff + 2 < v.blocksPerSeg
    ensures Good(m) && DiskOk(m) && m.s == m.cp && m.chain == [] && m.disk == map[]
    ensures m.s.logs[WARM_NODE].blkoff + 2 < m.s.v.blocksPerSeg
  {
    m := Mounted(v, img, map[], 1);
    MountedIsGood(v, img, map[], 1);
  }

  lemma SmallExample() returns (v: Volume, img: Image)
    ensures ImageOk(v, img) && !img.logs[WARM_NODE].ssr && img.logs[WARM_NODE].blkoff + 2 < v.blocksPerSeg
  {
    SmallImageOk(0);
    v, img := SmallVolume(), SmallImage(0);
  }

  /** And there is such an image. */
  lemma {:induction false} SmallMachineLosesABlock() returns (m: Machine)
    ensures Good(m) && DiskOk(m) && m.s == m.cp && m.chain == [] && m.disk == map[]
    ensures m.s.logs[WARM_NODE].blkoff + 2 < m.s.v.blocksPerSeg
  {
    var v, img := SmallExample();
    m := RoomyImage(v, img);
  }
}
