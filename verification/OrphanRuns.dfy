/**
 * The orphan protocol (checkpoint.c, namei.c, dir.c, inode.c): operations run in f2fs_lock_op sections,
 * a checkpoint takes the same lock exclusively.  An acquisition is turned into an entry or given back
 * before its section ends, so no checkpoint sees the counter run ahead of the list.
 */
module OrphanRuns {
  import opened Geometry
  import opened Lists
  import opened Orphans

  /** What a checkpoint left on disk: the link counts, and the orphan blocks of its pack. */
  datatype Saved = Saved(links: map<nat, nat>, blocks: seq<seq<nat>>)

  datatype State = State(
    inos: seq<nat>,          // orphan_inode_list
    nOrphans: nat,           // n_orphans
    links: map<nat, nat>,    // i_nlink of every inode there is
    ops: map<nat, bool>,     // the open sections, and whether each holds an acquisition
    cp: Saved)

  /** `perBlock` is F2FS_ORPHANS_PER_BLOCK, `max` is max_orphans. */
  datatype Limits = Limits(perBlock: nat, max: nat)
  {
    ghost predicate Valid() { 0 < perBlock }
  }

  datatype Step =
    | Begin(op: nat)
    | Acquire(op: nat)
    | GiveUp(op: nat)
    | Create(op: nat, ino: nat, n: nat)
    | AddLink(op: nat, ino: nat)
    | Unlink(op: nat, ino: nat, n: nat)
    | Evict(op: nat, ino: nat)
    | End(op: nat)
    | Checkpoint(stale: seq<seq<nat>>)
    | Crash

  ghost predicate Open(s: State, op: nat) { op in s.ops }

  /** The section holds an acquisition that it has neither used nor given back. */
  ghost predicate Holds(s: State, op: nat) { op in s.ops && s.ops[op] }

  ghost function Holding(ops: map<nat, bool>): set<nat> {
    set op | op in ops && ops[op]
  }

  /**
   * The callers' protocol and the lock.  A name is only removed from an inode that has links, an inode
   * is evicted when it has none, and a new inode takes a number not in use.
   */
  ghost predicate Enabled(l: Limits, s: State, st: Step)
    requires l.Valid()
  {
    match st
    case Begin(op) => !Open(s, op)
    case Acquire(op) => Open(s, op) && !Holds(s, op)
    case GiveUp(op) => Holds(s, op)
    case Create(op, ino, n) => Open(s, op) && ino !in s.links && 0 < n
    case AddLink(op, ino) => Open(s, op) && ino in s.links && 0 < s.links[ino]
    case Unlink(op, ino, n) => Holds(s, op) && ino in s.links && 0 < n <= s.links[ino]
    case Evict(op, ino) => Open(s, op) && ino in s.links && s.links[ino] == 0
    case End(op) => Open(s, op) && !Holds(s, op)
    case Checkpoint(stale) => s.ops == map[] && |stale| == OrphanBlocks(s.nOrphans, l.perBlock)
    case Crash => true
  }

  /** Inode numbers in `gone` are evicted. */
  function Minus(links: map<nat, nat>, gone: seq<nat>): map<nat, nat> {
    map i | i in links && i !in gone :: links[i]
  }

  function Next(l: Limits, s: State, st: Step): State
    requires l.perBlock > 0
  {
    match st
    case Begin(op) => s.(ops := s.ops[op := false])
    case Acquire(op) => if s.nOrphans >= l.max then s else s.(nOrphans := s.nOrphans + 1, ops := s.ops[op := true])
    case GiveUp(op) => if s.nOrphans == 0 then s else s.(nOrphans := s.nOrphans - 1, ops := s.ops[op := false])
    case Create(_, ino, n) => s.(links := s.links[ino := n])
    case AddLink(_, ino) => if ino in s.links then s.(links := s.links[ino := s.links[ino] + 1]) else s
    case Unlink(op, ino, n) => Unlinked(s, op, ino, n)
    case Evict(_, ino) =>
      s.(links := s.links - {ino}, inos := Without(s.inos, ino),
         nOrphans := if ino in s.inos && s.nOrphans > 0 then s.nOrphans - 1 else s.nOrphans)
    case End(op) => s.(ops := s.ops - {op})
    case Checkpoint(stale) =>
      if OrphanBlocks(|s.inos|, l.perBlock) <= |stale|
      then s.(cp := Saved(s.links, Written(s.inos, stale, l.perBlock))) else s
    case Crash => State([], 0, Minus(s.cp.links, Concat(s.cp.blocks)), map[], s.cp)
  }

  /** f2fs_delete_entry on its inode: the last link gone makes it an orphan, otherwise the acquisition is returned. */
  function Unlinked(s: State, op: nat, ino: nat, n: nat): State {
    if ino !in s.links || s.links[ino] < n || s.nOrphans == 0 then s
    else if s.links[ino] == n then
      s.(links := s.links[ino := 0], inos := Inserted(s.inos, ino), ops := s.ops[op := false])
    else
      s.(links := s.links[ino := s.links[ino] - n], nOrphans := s.nOrphans - 1, ops := s.ops[op := false])
  }

  // ----- invariant -----

  /** A sorted list of exactly the inodes without links. */
  ghost predicate Unlinks(inos: seq<nat>, links: map<nat, nat>) {
    Increasing(inos) && forall i :: i in inos <==> i in links && links[i] == 0
  }

  ghost predicate Good(l: Limits, s: State) {
    && Unlinks(s.inos, s.links)
    && s.nOrphans == |s.inos| + |Holding(s.ops)| && s.nOrphans <= l.max
    && Unlinks(Concat(s.cp.blocks), s.cp.links)
  }

  lemma HoldingSet(ops: map<nat, bool>, op: nat, b: bool)
    requires op in ops ==> ops[op] != b
    requires op !in ops ==> !b
    ensures |Holding(ops[op := b])| == |Holding(ops)| + (if b then 1 else if op in ops then -1 else 0)
  {
    if b {
      assert Holding(ops[op := b]) == Holding(ops) + {op};
    } else {
      assert Holding(ops[op := b]) == Holding(ops) - {op};
    }
  }

  lemma HoldingEnd(ops: map<nat, bool>, op: nat)
    requires op in ops && !ops[op]
    ensures Holding(ops - {op}) == Holding(ops)
  {
  }

  lemma {:induction false} UnlinkKeeps(l: Limits, s: State, op: nat, ino: nat, n: nat)
    requires l.Valid() && Good(l, s) && Enabled(l, s, Unlink(op, ino, n))
    ensures Good(l, Next(l, s, Unlink(op, ino, n)))
  {
    HoldingSet(s.ops, op, false);
    assert ino !in s.inos && op in Holding(s.ops);
    InsertedOk(s.inos, ino);
  }

  lemma {:induction false} EvictKeeps(l: Limits, s: State, op: nat, ino: nat)
    requires l.Valid() && Good(l, s) && Enabled(l, s, Evict(op, ino))
    ensures Good(l, Next(l, s, Evict(op, ino)))
  {
    WithoutIncreasing(s.inos, ino);
  }

  /** No section is open, so nothing is pending and the blocks reserved are the blocks filled. */
  lemma {:induction false} CheckpointKeeps(l: Limits, s: State, stale: seq<seq<nat>>)
    requires l.Valid() && Good(l, s) && Enabled(l, s, Checkpoint(stale))
    ensures s.nOrphans == |s.inos|
    ensures Concat(Written(s.inos, stale, l.perBlock)) == s.inos
    ensures Good(l, Next(l, s, Checkpoint(stale)))
  {
    assert Holding(s.ops) == {};
    WrittenReadsBack(s.inos, stale, l.perBlock);
  }

  lemma {:induction false} CrashKeeps(l: Limits, s: State)
    requires l.Valid() && Good(l, s)
    ensures Good(l, Next(l, s, Crash))
  {
    assert Holding(map[]) == {};
  }

  lemma {:induction false} StepKeeps(l: Limits, s: State, st: Step)
    requires l.Valid() && Good(l, s) && Enabled(l, s, st)
    ensures Good(l, Next(l, s, st))
  {
    match st
    case Begin(op) => HoldingSet(s.ops, op, false);
    case Acquire(op) => HoldingSet(s.ops, op, true);
    case GiveUp(op) => HoldingSet(s.ops, op, false); assert op in Holding(s.ops);
    case Create(op, ino, n) =>
    case AddLink(op, ino) =>
    case Unlink(op, ino, n) => UnlinkKeeps(l, s, op, ino, n);
    case Evict(op, ino) => EvictKeeps(l, s, op, ino);
    case End(op) => HoldingEnd(s.ops, op);
    case Checkpoint(stale) => CheckpointKeeps(l, s, stale);
    case Crash => CrashKeeps(l, s);
  }

  // ----- runs -----

  /** The state after the longest executable prefix of a run. */
  ghost function After(l: Limits, s: State, steps: seq<Step>): State
    requires l.Valid()
    decreases |steps|
  {
    if steps == [] || !Enabled(l, s, steps[0]) then s else After(l, Next(l, s, steps[0]), steps[1..])
  }

  lemma {:induction false} RunKeeps(l: Limits, s: State, steps: seq<Step>)
    requires l.Valid() && Good(l, s)
    ensures Good(l, After(l, s, steps))
    decreases |steps|
  {
    if steps != [] && Enabled(l, s, steps[0]) {
      StepKeeps(l, s, steps[0]);
      RunKeeps(l, Next(l, s, steps[0]), steps[1..]);
    }
  }

  /** A new file system. */
  function Fresh(links: map<nat, nat>): State {
    State([], 0, links, map[], Saved(links, []))
  }

  /**
   * In every run the counter is the list plus the pending acquisitions, and the list is exactly the
   * inodes without links.
   */
  lemma {:induction false} CounterIsListPlusPending(l: Limits, links: map<nat, nat>, steps: seq<Step>)
    requires l.Valid() && forall i :: i in links ==> 0 < links[i]
    ensures var s := After(l, Fresh(links), steps);
      && s.nOrphans == |s.inos| + |Holding(s.ops)| && s.nOrphans <= l.max
      && Unlinks(s.inos, s.links)
  {
    assert Holding(map[]) == {};
    RunKeeps(l, Fresh(links), steps);
  }

  /**
   * At every checkpoint of every run the pack gives back the list, whatever its blocks held before; and a
   * crash followed by a mount evicts exactly the inodes that had no links at that checkpoint.
   */
  lemma {:induction false} EveryCheckpointReadsBack(l: Limits, links: map<nat, nat>, steps: seq<Step>, stale: seq<seq<nat>>)
    requires l.Valid() && forall i :: i in links ==> 0 < links[i]
    requires Enabled(l, After(l, Fresh(links), steps), Checkpoint(stale))
    ensures var s := After(l, Fresh(links), steps);
      && s.nOrphans == |s.inos| && Concat(Written(s.inos, stale, l.perBlock)) == s.inos
      && Next(l, Next(l, s, Checkpoint(stale)), Crash).links == map i | i in s.links && s.links[i] > 0 :: s.links[i]
  {
    assert Holding(map[]) == {};
    RunKeeps(l, Fresh(links), steps);
    CheckpointKeeps(l, After(l, Fresh(links), steps), stale);
  }
}
