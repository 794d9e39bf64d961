/**
 * The two checkpoint packs (checkpoint.c, f2fs.h): where a pack is written, how a pack is judged at
 * mount, and what a crash in the middle of writing one can lead to.
 */
module CheckpointPack {
  import opened Geometry
  import opened Orphans
  import opened DirtySeglist

  const U64: int := 0x1_0000_0000_0000_0000

  /** A block of a checkpoint segment: a checkpoint block with a good CRC, or anything else. */
  datatype CpBlock = Cp(ver: int, total: nat) | Other

  type Disk = map<int, CpBlock>

  datatype Area = Area(cpBase: int, blocksPerSeg: nat)

  /** A block never written, or lost, reads as garbage. */
  function Read(d: Disk, a: int): CpBlock {
    if a in d then d[a] else Other
  }

  /** __start_cp_addr: odd versions live in the first checkpoint segment, even ones in the second. */
  function StartOf(ar: Area, ver: int): int {
    if ver % 2 == 1 then ar.cpBase else ar.cpBase + ar.blocksPerSeg
  }

  /** ver_after on unsigned 64-bit versions. */
  predicate VerAfter(x: int, y: int) {
    0 < (x - y) % U64 < U64 / 2
  }

  /** validate_checkpoint: head and tail must both pass the CRC and carry the same version. */
  function Validate(d: Disk, start: int): (r: int)
    ensures r == -1 || (Read(d, start).Cp? && r == Read(d, start).ver)
  {
    match Read(d, start)
    case Other => -1
    case Cp(pre, total) =>
      match Read(d, start + total - 1)
      case Other => -1
      case Cp(cur, _) => if cur == pre then cur else -1
  }

  /** get_valid_checkpoint: the version mounted, or -1. */
  function Mounted(ar: Area, d: Disk): int {
    var v1, v2 := Validate(d, ar.cpBase), Validate(d, ar.cpBase + ar.blocksPerSeg);
    if v1 != -1 && v2 != -1 then (if VerAfter(v2, v1) then v2 else v1)
    else if v1 != -1 then v1 else v2
  }

  // ----- the size of a pack (do_checkpoint, init_orphan_info) -----

  /** cp_pack_total_block_count. */
  function PackTotal(dataSum: nat, nOrphans: nat, perBlock: nat, umount: bool): nat
    requires 0 < perBlock
  {
    2 + dataSum + OrphanBlocks(nOrphans, perBlock) + (if umount then 3 else 0)
  }

  /** acquire_orphan_inode keeps the orphan count within max_orphans, so every pack fits its segment. */
  lemma {:induction false} PackFits(dataSum: nat, nOrphans: nat, perBlock: nat, blocksPerSeg: nat, umount: bool)
    requires 0 < perBlock && 2 + NR_LOGS <= blocksPerSeg && 1 <= dataSum <= 3
    requires nOrphans <= (blocksPerSeg - 2 - NR_LOGS) * perBlock
    ensures 3 <= PackTotal(dataSum, nOrphans, perBlock, umount) <= blocksPerSeg
  {
    var k := blocksPerSeg - 2 - NR_LOGS;
    var n := nOrphans + perBlock - 1;
    assert n == (n / perBlock) * perBlock + n % perBlock;
    MulLe(k + 1, n / perBlock, perBlock);
    assert (k + 1) * perBlock == k * perBlock + perBlock;
  }

  // ----- writing a pack, and crashing -----

  function PackBlock(start: int, ver: int, total: nat, a: int): CpBlock {
    if a == start || a == start + total - 1 then Cp(ver, total) else Other
  }

  /** A segment that validates as version `ver`: its head gives the length, and its tail the same version. */
  predicate IsPack(d: Disk, start: int, ver: int, total: nat) {
    && 2 <= total && Read(d, start) == Cp(ver, total)
    && Read(d, start + total - 1).Cp? && Read(d, start + total - 1).ver == ver
  }

  /** The blocks do_checkpoint writes for version `ver`; the middle ones never look like checkpoints. */
  function PackBlocks(start: int, ver: int, total: nat): Disk
    requires 2 <= total
  {
    map i: int | start <= i < start + total :: PackBlock(start, ver, total, i)
  }

  /** The disk when exactly the blocks in `reached` made it before the crash. */
  function Crash(d: Disk, pack: Disk, reached: set<int>): Disk {
    d + (map i | i in pack && i in reached :: pack[i])
  }

  function Next(v: int): int {
    (v + 1) % U64
  }

  /** Pack v is intact and is the one a mount picks. */
  ghost predicate Settled(ar: Area, d: Disk, v: int, total: nat) {
    && 2 <= total <= ar.blocksPerSeg && 0 <= v < U64
    && IsPack(d, StartOf(ar, v), v, total)
    && Mounted(ar, d) == v
    && Wide(d)
  }

  /** Versions on disk are 64-bit numbers. */
  ghost predicate Wide(d: Disk) {
    forall a :: a in d && d[a].Cp? ==> 0 <= d[a].ver < U64
  }

  /** Writing version v + 1 never touches the segment of version v. */
  lemma ParityKeepsOldPack(ar: Area, d: Disk, v: int, total: nat, reached: set<int>, a: int)
    requires 2 <= total <= ar.blocksPerSeg && 0 <= v < U64
    requires StartOf(ar, v) <= a < StartOf(ar, v) + ar.blocksPerSeg
    ensures Read(Crash(d, PackBlocks(StartOf(ar, Next(v)), Next(v), total), reached), a) == Read(d, a)
  {
  }

  /** What one address reads as after the crash. */
  lemma CrashRead(ar: Area, d: Disk, start: int, ver: int, total: nat, reached: set<int>, a: int)
    requires 2 <= total
    ensures Read(Crash(d, PackBlocks(start, ver, total), reached), a) ==
      if start <= a < start + total && a in reached
      then PackBlock(start, ver, total, a) else Read(d, a)
  {
  }

  /** The three ways an interrupted write can leave a segment that validates as the new version. */
  ghost predicate Accepts(d: Disk, start: int, ver: int, total: nat, reached: set<int>) {
    var tail := start + total - 1;
    || (start in reached && tail in reached)
    || (start in reached && tail !in reached && Read(d, tail).Cp? && Read(d, tail).ver == ver)
    || (start !in reached && tail in reached && Read(d, start) == Cp(ver, total))
  }

  lemma NewSegmentVersion(ar: Area, d: Disk, start: int, ver: int, total: nat, reached: set<int>)
    requires 2 <= total && Validate(d, start) != ver && 0 <= ver
    ensures Validate(Crash(d, PackBlocks(start, ver, total), reached), start) == ver <==> Accepts(d, start, ver, total, reached)
    ensures var w := Validate(Crash(d, PackBlocks(start, ver, total), reached), start);
      w == ver || w == -1 || w == Validate(d, start)
  {
    CrashRead(ar, d, start, ver, total, reached, start);
    var d' := Crash(d, PackBlocks(start, ver, total), reached);
    if Read(d', start).Cp? {
      CrashRead(ar, d, start, ver, total, reached, start + Read(d', start).total - 1);
    }
    CrashRead(ar, d, start, ver, total, reached, start + total - 1);
  }

  lemma NextIsAfter(v: int)
    requires 0 <= v < U64
    ensures VerAfter(Next(v), v) && !VerAfter(v, Next(v)) && Next(v) != v && 0 <= Next(v) < U64
  {
    if v == U64 - 1 { assert Next(v) == 0; } else { assert Next(v) == v + 1; }
  }

  /** The choice between a valid pack v and what the other segment holds. */
  function Newer(v: int, other: int): int {
    if other == -1 then v
    else if v % 2 == 1 then (if VerAfter(other, v) then other else v)
    else (if VerAfter(v, other) then v else other)
  }

  /** A mount compares the two segments; only the newer of the two valid packs counts. */
  lemma MountedOf(ar: Area, d: Disk, v: int)
    requires 0 <= v
    requires Validate(d, StartOf(ar, v)) == v
    ensures Mounted(ar, d) == Newer(v, Validate(d, StartOf(ar, v + 1)))
  {
  }

  /**
   * A crash that leaves any subset of pack v + 1 on disk mounts v or v + 1, and v + 1 exactly when
   * both its head and its tail were written -- or when a leftover block already carried v + 1.
   */
  lemma CrashOutcome(ar: Area, d: Disk, v: int, total: nat, total': nat, reached: set<int>)
    requires Settled(ar, d, v, total) && 2 <= total' <= ar.blocksPerSeg
    ensures var d' := Crash(d, PackBlocks(StartOf(ar, Next(v)), Next(v), total'), reached);
      Mounted(ar, d') == if Accepts(d, StartOf(ar, Next(v)), Next(v), total', reached) then Next(v) else v
  {
    var v', start := Next(v), StartOf(ar, Next(v));
    var d' := Crash(d, PackBlocks(start, v', total'), reached);
    NextIsAfter(v);
    ParityKeepsOldPack(ar, d, v, total', reached, StartOf(ar, v));
    ParityKeepsOldPack(ar, d, v, total', reached, StartOf(ar, v) + total - 1);
    assert Validate(d, StartOf(ar, v)) == v && Validate(d', StartOf(ar, v)) == v;
    MountedOf(ar, d, v);
    MountedOf(ar, d', v);
    assert StartOf(ar, v + 1) == start;
    NewSegmentVersion(ar, d, start, v', total', reached);
  }

  /** No leftover of an earlier attempt at the same version sits where it could complete this one. */
  ghost predicate NoLeftover(ar: Area, d: Disk, v: int, total: nat) {
    var start := StartOf(ar, Next(v));
    && !(Read(d, start + total - 1).Cp? && Read(d, start + total - 1).ver == Next(v))
    && Read(d, start) != Cp(Next(v), total)
  }

  /** A crash after which version v + 1 is mounted although its head or its tail was never written. */
  ghost predicate HalfMounted(ar: Area, d: Disk, v: int, total: nat, reached: set<int>)
    requires 2 <= total
  {
    && Mounted(ar, Crash(d, PackBlocks(StartOf(ar, Next(v)), Next(v), total), reached)) == Next(v)
    && !(StartOf(ar, Next(v)) in reached && StartOf(ar, Next(v)) + total - 1 in reached)
  }

  /** The new version is mounted only if its head and its tail were both written, whatever else was. */
  ghost predicate AllOrNothing(ar: Area, d: Disk, v: int, total: nat)
    requires 2 <= total
  {
    forall reached: set<int> :: !HalfMounted(ar, d, v, total, reached)
  }

  lemma LeftoverCompletes(ar: Area, d: Disk, v: int, total: nat, total': nat) returns (reached: set<int>)
    requires Settled(ar, d, v, total) && 2 <= total' <= ar.blocksPerSeg && !NoLeftover(ar, d, v, total')
    ensures HalfMounted(ar, d, v, total', reached)
  {
    var start := StartOf(ar, Next(v));
    reached := if Read(d, start) == Cp(Next(v), total') then {start + total' - 1} else {start};
    CrashOutcome(ar, d, v, total, total', reached);
  }

  lemma CleanIsAllOrNothing(ar: Area, d: Disk, v: int, total: nat, total': nat, reached: set<int>)
    requires Settled(ar, d, v, total) && 2 <= total' <= ar.blocksPerSeg && NoLeftover(ar, d, v, total')
    ensures !HalfMounted(ar, d, v, total', reached)
  {
    CrashOutcome(ar, d, v, total, total', reached);
    NextIsAfter(v);
  }

  /** Writing a pack is all-or-nothing exactly when no such leftover is there. */
  lemma AllOrNothingIff(ar: Area, d: Disk, v: int, total: nat, total': nat)
    requires Settled(ar, d, v, total) && 2 <= total' <= ar.blocksPerSeg
    ensures AllOrNothing(ar, d, v, total') <==> NoLeftover(ar, d, v, total')
  {
    if NoLeftover(ar, d, v, total') {
      forall reached: set<int> ensures !HalfMounted(ar, d, v, total', reached) {
        CleanIsAllOrNothing(ar, d, v, total, total', reached);
      }
    } else {
      var reached := LeftoverCompletes(ar, d, v, total, total');
    }
  }

  // ----- runs of attempts -----

  /** One write_checkpoint: the length of its pack, and the blocks that reached the disk; if all did, it completed. */
  datatype Attempt = Attempt(total: nat, reached: set<int>)

  /** The disk, the version mounted from it, its length, and the attempts at the next version since. */
  datatype Machine = Machine(d: Disk, v: int, total: nat, since: seq<Attempt>)

  /** The disk after mkfs: one pack, nothing else that looks like a checkpoint. */
  function Fresh(ar: Area, v: int, total: nat): Machine
    requires 2 <= total
  {
    Machine(PackBlocks(StartOf(ar, v), v, total), v, total, [])
  }

  /** An attempt, and the mount after it. */
  function Try(ar: Area, m: Machine, a: Attempt): Machine
    requires 2 <= a.total
  {
    var d := Crash(m.d, PackBlocks(StartOf(ar, Next(m.v)), Next(m.v), a.total), a.reached);
    var w := Mounted(ar, d);
    if w == m.v then Machine(d, m.v, m.total, m.since + [a])
    else Machine(d, w, if Read(d, StartOf(ar, w)).Cp? then Read(d, StartOf(ar, w)).total else 0, [])
  }

  predicate AllFit(ar: Area, attempts: seq<Attempt>) {
    forall i :: 0 <= i < |attempts| ==> 2 <= attempts[i].total <= ar.blocksPerSeg
  }

  function After(ar: Area, m: Machine, attempts: seq<Attempt>): Machine
    requires AllFit(ar, attempts)
    decreases |attempts|
  {
    if attempts == [] then m else After(ar, Try(ar, m, attempts[0]), attempts[1..])
  }

  /** The length of the pack whose attempt last reached this block, or 0. */
  function LastAt(since: seq<Attempt>, start: int, a: int): nat {
    if since == [] then 0
    else
      var x := since[|since| - 1];
      if start <= a < start + x.total && a in x.reached then x.total else LastAt(since[..|since| - 1], start, a)
  }

  /** An earlier attempt of the same length was the last to reach the place of the head, or of the tail. */
  predicate Remains(since: seq<Attempt>, start: int, total: nat) {
    LastAt(since, start, start) == total || LastAt(since, start, start + total - 1) == total
  }

  /** A checkpoint block at most `age` versions older than v. */
  ghost predicate Old(d: Disk, a: int, v: int, age: int) {
    Read(d, a).Cp? ==> 0 <= (v - Read(d, a).ver) % U64 <= age
  }

  /** A block of the other segment is what the last attempt that reached it left there, or old. */
  ghost predicate Explained(ar: Area, m: Machine, age: int, a: int) {
    var start, t := StartOf(ar, Next(m.v)), LastAt(m.since, StartOf(ar, Next(m.v)), a);
    if t > 0 then Read(m.d, a) == PackBlock(start, Next(m.v), t, a) else Old(m.d, a, m.v, age)
  }

  ghost predicate RunOk(ar: Area, m: Machine, age: int) {
    && Settled(ar, m.d, m.v, m.total)
    && (forall a :: StartOf(ar, m.v) <= a < StartOf(ar, m.v) + ar.blocksPerSeg ==> Old(m.d, a, m.v, age))
    && (forall a :: StartOf(ar, Next(m.v)) <= a < StartOf(ar, Next(m.v)) + ar.blocksPerSeg ==> Explained(ar, m, age, a))
  }

  lemma Older(v: int, w: int, age: int)
    requires 0 <= v < U64 && 0 <= (v - w) % U64 <= age && age + 1 < U64
    ensures 0 < (Next(v) - w) % U64 <= age + 1
    ensures w != Next(v)
  {
    Shift(v, w);
  }

  lemma Shift(v: int, w: int)
    ensures (Next(v) - w) % U64 == ((v - w) % U64 + 1) % U64
  {
  }

  lemma TwoSegments(ar: Area, v: int)
    requires 0 <= v < U64
    ensures StartOf(ar, Next(v)) == StartOf(ar, v + 1) && StartOf(ar, Next(Next(v))) == StartOf(ar, v)
  {
    NextIsAfter(v);
    NextIsAfter(Next(v));
  }

  /** Leftovers on the disk are exactly what the interrupted attempts say. */
  lemma {:induction false} RemainsIsLeftover(ar: Area, m: Machine, age: int, total: nat)
    requires RunOk(ar, m, age) && age + 1 < U64 && 2 <= total <= ar.blocksPerSeg
    ensures NoLeftover(ar, m.d, m.v, total) <==> !Remains(m.since, StartOf(ar, Next(m.v)), total)
  {
    var start := StartOf(ar, Next(m.v));
    assert Explained(ar, m, age, start) && Explained(ar, m, age, start + total - 1);
    if Old(m.d, start, m.v, age) && Read(m.d, start).Cp? { Older(m.v, Read(m.d, start).ver, age); }
    var tail := start + total - 1;
    if Old(m.d, tail, m.v, age) && Read(m.d, tail).Cp? { Older(m.v, Read(m.d, tail).ver, age); }
  }

  /** An attempt that is not mounted adds itself to the explanation. */
  lemma {:induction false} TryFails(ar: Area, m: Machine, age: int, a: Attempt)
    requires RunOk(ar, m, age) && 2 <= a.total <= ar.blocksPerSeg && Try(ar, m, a).v == m.v
    ensures RunOk(ar, Try(ar, m, a), age)
  {
    var r, start := Try(ar, m, a), StartOf(ar, Next(m.v));
    CrashOutcome(ar, m.d, m.v, m.total, a.total, a.reached);
    NextIsAfter(m.v);
    CrashSettles(ar, m, a);
    forall b | StartOf(ar, m.v) <= b < StartOf(ar, m.v) + ar.blocksPerSeg ensures Old(r.d, b, m.v, age) {
      ParityKeepsOldPack(ar, m.d, m.v, a.total, a.reached, b);
      assert Old(m.d, b, m.v, age);
    }
    forall b | start <= b < start + ar.blocksPerSeg ensures Explained(ar, r, age, b) {
      assert Explained(ar, m, age, b);
      ExplainedStill(ar, m, age, a, b);
    }
  }

  lemma ExplainedStill(ar: Area, m: Machine, age: int, a: Attempt, b: int)
    requires 2 <= a.total && Try(ar, m, a).v == m.v && Explained(ar, m, age, b)
    ensures Explained(ar, Try(ar, m, a), age, b)
  {
    CrashRead(ar, m.d, StartOf(ar, Next(m.v)), Next(m.v), a.total, a.reached, b);
    assert (m.since + [a])[..|m.since|] == m.since;
  }

  lemma CrashWide(d: Disk, start: int, ver: int, total: nat, reached: set<int>)
    requires Wide(d) && 2 <= total && 0 <= ver < U64
    ensures Wide(Crash(d, PackBlocks(start, ver, total), reached))
  {
  }

  /** What is mounted after an attempt is a settled pack. */
  lemma CrashSettles(ar: Area, m: Machine, a: Attempt)
    requires Settled(ar, m.d, m.v, m.total) && 2 <= a.total <= ar.blocksPerSeg
    ensures var r := Try(ar, m, a); Settled(ar, r.d, r.v, r.total) && (r.v == m.v || r.v == Next(m.v))
  {
    var start := StartOf(ar, Next(m.v));
    NextIsAfter(m.v);
    CrashOutcome(ar, m.d, m.v, m.total, a.total, a.reached);
    CrashWide(m.d, start, Next(m.v), a.total, a.reached);
    ParityKeepsOldPack(ar, m.d, m.v, a.total, a.reached, StartOf(ar, m.v));
    ParityKeepsOldPack(ar, m.d, m.v, a.total, a.reached, StartOf(ar, m.v) + m.total - 1);
    CrashRead(ar, m.d, start, Next(m.v), a.total, a.reached, start);
    CrashRead(ar, m.d, start, Next(m.v), a.total, a.reached, start + a.total - 1);
  }

  lemma NewSegmentAged(ar: Area, m: Machine, age: int, a: Attempt, b: int)
    requires RunOk(ar, m, age) && 0 <= age && age + 1 < U64 && 2 <= a.total <= ar.blocksPerSeg
    requires StartOf(ar, Next(m.v)) <= b < StartOf(ar, Next(m.v)) + ar.blocksPerSeg
    ensures Old(Try(ar, m, a).d, b, Next(m.v), age + 1)
  {
    CrashRead(ar, m.d, StartOf(ar, Next(m.v)), Next(m.v), a.total, a.reached, b);
    assert Explained(ar, m, age, b);
    if Old(m.d, b, m.v, age) && Read(m.d, b).Cp? { Older(m.v, Read(m.d, b).ver, age); }
  }

  lemma OldSegmentAged(ar: Area, m: Machine, age: int, a: Attempt, b: int)
    requires RunOk(ar, m, age) && 0 <= age && age + 1 < U64 && 2 <= a.total <= ar.blocksPerSeg
    requires StartOf(ar, m.v) <= b < StartOf(ar, m.v) + ar.blocksPerSeg
    ensures Old(Try(ar, m, a).d, b, Next(m.v), age + 1)
  {
    ParityKeepsOldPack(ar, m.d, m.v, a.total, a.reached, b);
    assert Old(m.d, b, m.v, age);
    if Read(m.d, b).Cp? { Older(m.v, Read(m.d, b).ver, age); }
  }

  /** Once the next version is mounted, both segments hold only versions up to it. */
  lemma {:induction false} TrySucceeds(ar: Area, m: Machine, age: int, a: Attempt)
    requires RunOk(ar, m, age) && 0 <= age && age + 1 < U64 && 2 <= a.total <= ar.blocksPerSeg && Try(ar, m, a).v != m.v
    ensures RunOk(ar, Try(ar, m, a), age + 1) && Try(ar, m, a).v == Next(m.v) && Try(ar, m, a).since == []
  {
    var r := Try(ar, m, a);
    CrashSettles(ar, m, a);
    TwoSegments(ar, m.v);
    var older := age + 1;
    forall b | StartOf(ar, r.v) <= b < StartOf(ar, r.v) + ar.blocksPerSeg ensures Old(r.d, b, r.v, older) {
      NewSegmentAged(ar, m, age, a, b);
    }
    forall b | StartOf(ar, m.v) <= b < StartOf(ar, m.v) + ar.blocksPerSeg ensures Explained(ar, r, older, b) {
      OldSegmentAged(ar, m, age, a, b);
    }
  }

  lemma RunOkLater(ar: Area, m: Machine, age: int, later: int)
    requires RunOk(ar, m, age) && age <= later
    ensures RunOk(ar, m, later)
  {
    forall a: int | Old(m.d, a, m.v, age) ensures Old(m.d, a, m.v, later) {
    }
    forall a: int | Explained(ar, m, age, a) ensures Explained(ar, m, later, a) {
    }
  }

  lemma {:induction false} RunKeeps(ar: Area, m: Machine, age: int, attempts: seq<Attempt>) returns (later: int)
    requires RunOk(ar, m, age) && AllFit(ar, attempts) && 0 <= age && age + |attempts| < U64
    ensures RunOk(ar, After(ar, m, attempts), later) && 0 <= later <= age + |attempts|
    decreases |attempts|
  {
    if attempts == [] { return age; }
    var r := Try(ar, m, attempts[0]);
    if r.v == m.v {
      TryFails(ar, m, age, attempts[0]);
      RunOkLater(ar, r, age, age + 1);
    } else {
      TrySucceeds(ar, m, age, attempts[0]);
    }
    later := RunKeeps(ar, r, age + 1, attempts[1..]);
  }

  lemma FreshOk(ar: Area, v: int, total: nat)
    requires 0 <= v < U64 && 2 <= total <= ar.blocksPerSeg
    ensures RunOk(ar, Fresh(ar, v, total), 0)
  {
    var m := Fresh(ar, v, total);
    TwoSegments(ar, v);
    assert Validate(m.d, StartOf(ar, v)) == v && Validate(m.d, StartOf(ar, v + 1)) == -1;
    MountedOf(ar, m.d, v);
  }

  /**
   * In every run of checkpoints, completed or interrupted after any blocks, the next one is all-or-nothing
   * exactly when no interrupted attempt at that version, of the same length, was the last to reach the
   * place of its head or of its tail.
   */
  lemma {:induction false} NextIsAllOrNothingIff(ar: Area, v: int, total: nat, attempts: seq<Attempt>, next: nat)
    requires 0 <= v < U64 && 2 <= total <= ar.blocksPerSeg && 2 <= next <= ar.blocksPerSeg
    requires AllFit(ar, attempts) && |attempts| + 1 < U64
    ensures var m := After(ar, Fresh(ar, v, total), attempts);
      AllOrNothing(ar, m.d, m.v, next) <==> !Remains(m.since, StartOf(ar, Next(m.v)), next)
  {
    FreshOk(ar, v, total);
    var m := After(ar, Fresh(ar, v, total), attempts);
    var age := RunKeeps(ar, Fresh(ar, v, total), 0, attempts);
    RemainsIsLeftover(ar, m, age, next);
    AllOrNothingIff(ar, m.d, m.v, m.total, next);
  }

  /** Whatever happened, one more attempt mounts the same version or the next, and a completed one the next. */
  lemma {:induction false} NextIsMounted(ar: Area, v: int, total: nat, attempts: seq<Attempt>, a: Attempt)
    requires 0 <= v < U64 && 2 <= total <= ar.blocksPerSeg && 2 <= a.total <= ar.blocksPerSeg
    requires AllFit(ar, attempts) && |attempts| + 1 < U64
    ensures var m := After(ar, Fresh(ar, v, total), attempts); Progress(ar, m, a)
  {
    FreshOk(ar, v, total);
    var age := RunKeeps(ar, Fresh(ar, v, total), 0, attempts);
    TryProgress(ar, After(ar, Fresh(ar, v, total), attempts), a);
  }

  ghost predicate Progress(ar: Area, m: Machine, a: Attempt)
    requires 2 <= a.total
  {
    var start := StartOf(ar, Next(m.v));
    && (Try(ar, m, a).v == m.v || Try(ar, m, a).v == Next(m.v))
    && (start in a.reached && start + a.total - 1 in a.reached ==> Try(ar, m, a).v == Next(m.v))
  }

  lemma TryProgress(ar: Area, m: Machine, a: Attempt)
    requires Settled(ar, m.d, m.v, m.total) && 2 <= a.total <= ar.blocksPerSeg
    ensures Progress(ar, m, a)
  {
    CrashOutcome(ar, m.d, m.v, m.total, a.total, a.reached);
  }

  /** So the first attempt at a version is always all-or-nothing. */
  lemma {:induction false} FirstAttemptIsSafe(ar: Area, v: int, total: nat, attempts: seq<Attempt>, next: nat)
    requires 0 <= v < U64 && 2 <= total <= ar.blocksPerSeg && 2 <= next <= ar.blocksPerSeg
    requires AllFit(ar, attempts) && |attempts| + 1 < U64 && After(ar, Fresh(ar, v, total), attempts).since == []
    ensures var m := After(ar, Fresh(ar, v, total), attempts); AllOrNothing(ar, m.d, m.v, next)
  {
    NextIsAllOrNothingIff(ar, v, total, attempts, next);
  }

  // ----- a run in which it is not -----

  /** The disk after a first attempt that only got its tail out, and after a second with only its head. */
  ghost function TailOnly(ar: Area, d: Disk, v: int, total: nat): Disk
    requires 2 <= total
  {
    Crash(d, PackBlocks(StartOf(ar, Next(v)), Next(v), total), {StartOf(ar, Next(v)) + total - 1})
  }

  ghost function HeadOnly(ar: Area, d: Disk, v: int, total: nat): Disk
    requires 2 <= total
  {
    Crash(d, PackBlocks(StartOf(ar, Next(v)), Next(v), total), {StartOf(ar, Next(v))})
  }

  lemma {:induction false} TailOnlySettles(ar: Area, d: Disk, v: int, total: nat, total': nat, d': Disk)
    requires Settled(ar, d, v, total) && NoLeftover(ar, d, v, total') && 2 <= total' <= ar.blocksPerSeg
    requires d' == TailOnly(ar, d, v, total')
    ensures Settled(ar, d', v, total)
    ensures Read(d', StartOf(ar, Next(v)) + total' - 1) == Cp(Next(v), total')
  {
    var start := StartOf(ar, Next(v));
    var tail := start + total' - 1;
    CleanIsAllOrNothing(ar, d, v, total, total', {tail});
    CrashSettles(ar, Machine(d, v, total, []), Attempt(total', {tail}));
    CrashRead(ar, d, start, Next(v), total', {tail}, tail);
  }

  /**
   * But two interrupted attempts at the same version can add up to a pack nobody wrote: the first
   * leaves only its tail, the mount rightly falls back to v, and the second leaves only its head.
   */
  lemma TwoCrashesMayMix(ar: Area, d: Disk, v: int, total: nat, total': nat)
    requires Settled(ar, d, v, total) && NoLeftover(ar, d, v, total') && 2 <= total' <= ar.blocksPerSeg
    ensures Mounted(ar, TailOnly(ar, d, v, total')) == v
    ensures Mounted(ar, HeadOnly(ar, TailOnly(ar, d, v, total'), v, total')) == Next(v)
  {
    TailOnlySettles(ar, d, v, total, total', TailOnly(ar, d, v, total'));
    CrashOutcome(ar, TailOnly(ar, d, v, total'), v, total, total', {StartOf(ar, Next(v))});
  }

  /** The blocks of a pack before `end`. */
  function PackPart(start: int, ver: int, total: nat, end: int): Disk
    requires 2 <= total
  {
    map a: int | start <= a < end :: PackBlock(start, ver, total, a)
  }

  /** The pack has been written up to `end`. */
  ghost predicate PackWritten(d: Disk, before: Disk, start: int, ver: int, total: nat, end: int)
    requires 2 <= total
  {
    d == before + PackPart(start, ver, total, end)
  }

  lemma PackStart(d: Disk, start: int, ver: int, total: nat)
    requires 2 <= total
    ensures PackWritten(d[start := Cp(ver, total)], d, start, ver, total, start + 1)
  {
  }

  lemma PackGrows(d: Disk, start: int, ver: int, total: nat, blk: int)
    requires 2 <= total && start < blk < start + total - 1
    ensures PackWritten((d + PackPart(start, ver, total, blk))[blk := Other], d, start, ver, total, blk + 1)
  {
  }

  lemma PackEnds(d: Disk, start: int, ver: int, total: nat)
    requires 2 <= total
    ensures (d + PackPart(start, ver, total, start + total - 1))[start + total - 1 := Cp(ver, total)]
      == d + PackBlocks(start, ver, total)
  {
  }

  /** The checkpoint area as do_checkpoint updates it: one block after another. */
  class Checkpointer {
    const ar: Area
    var disk: Disk
    var ver: int

    /**
     * write_checkpoint's version step and the pack written by do_checkpoint, head first, tail last: a head, the
     * orphan inodes in blocks of `perBlock`, `dataSum` blocks of data summaries, three of node summaries at
     * umount, and the tail.  Head and tail carry the number of all of these.
     */
    method WriteCheckpoint(orphans: seq<nat>, perBlock: nat, dataSum: nat, umount: bool)
      requires 0 < perBlock && 0 <= ver < U64
      modifies this
      ensures ver == Next(old(ver))
      ensures var total := 1 + |Chunks(orphans, perBlock)| + dataSum + (if umount then 3 else 0) + 1;
        disk == old(disk) + PackBlocks(if ver % 2 == 1 then ar.cpBase else ar.cpBase + ar.blocksPerSeg, ver, total)
    {
      ver := (ver + 1) % U64;
      ChunksCount(orphans, perBlock);
      WritePack(StartOf(ar, ver), OrphanBlocks(|orphans|, perBlock), dataSum, if umount then 3 else 0,
                PackTotal(dataSum, |orphans|, perBlock, umount));
    }

    /** do_checkpoint's blocks: start_blk moves on by the blocks of each part. */
    method WritePack(start: int, orphanBlocks: nat, dataSum: nat, nodeSum: nat, total: nat)
      requires total == 2 + orphanBlocks + dataSum + nodeSum
      modifies this`disk
      ensures disk == old(disk) + PackBlocks(start, ver, total)
    {
      ghost var before, v := disk, ver;
      PackStart(before, start, v, total);
      disk := disk[start := Cp(ver, total)];
      var blk := WritePart(start + 1, orphanBlocks, start, v, total, before);
      blk := WritePart(blk, dataSum, start, v, total, before);
      blk := WritePart(blk, nodeSum, start, v, total, before);
      PackEnds(before, start, v, total);
      disk := disk[blk := Cp(ver, total)];
    }

    /** n blocks of one part, from blk on. */
    method WritePart(blk: int, n: nat, ghost start: int, ghost v: int, ghost total: nat, ghost before: Disk) returns (end: int)
      requires 2 <= total && start < blk && blk + n <= start + total - 1 && PackWritten(disk, before, start, v, total, blk)
      modifies this`disk
      ensures end == blk + n && PackWritten(disk, before, start, v, total, end)
    {
      end := blk;
      while end < blk + n
        invariant blk <= end <= blk + n && PackWritten(disk, before, start, v, total, end)
      {
        PackGrows(before, start, v, total, end);
        disk := disk[end := Other];
        end := end + 1;
      }
    }

    /** get_valid_checkpoint: a valid version than which no valid one is later, or -1 when there is none. */
    method GetValidCheckpoint() returns (v: int)
      ensures v == Mounted(ar, disk)
      ensures v == Validate(disk, ar.cpBase) || v == Validate(disk, ar.cpBase + ar.blocksPerSeg)
      ensures forall w :: w == Validate(disk, ar.cpBase) || w == Validate(disk, ar.cpBase + ar.blocksPerSeg) ==>
        w == -1 || (v != -1 && !VerAfter(w, v))
    {
      var cp1 := Validate(disk, ar.cpBase);
      var cp2 := Validate(disk, ar.cpBase + ar.blocksPerSeg);
      if cp1 != -1 && cp2 != -1 {
        if VerAfter(cp2, cp1) { v := cp2; } else { v := cp1; }
      } else if cp1 != -1 {
        v := cp1;
      } else {
        v := cp2;
      }
    }
  }
}
