/**
 * Copying a file through a shared ring of buffers (OSlab/lab/lab3): one process fills slots, the other
 * drains them, and two semaphores count free and full slots.  Every statement that touches shared
 * memory or a semaphore is one step, and the two processes interleave freely.
 */
module RingCopy {
  import opened Geometry

  /** The input file, the number of slots and the bytes of a slot. */
  datatype Config = Config(src: seq<char>, slots: nat, chunk: nat)
  {
    predicate Valid() { 0 < slots && 0 < chunk }

    /** How many chunks are passed on: the last one is shorter than a slot, and may be empty. */
    function Chunks(): nat
      requires Valid()
    {
      |src| / chunk + 1
    }

    /** The bytes of the first k chunks. */
    function Upto(k: nat): (n: nat)
      ensures n <= |src|
    {
      if k * chunk <= |src| then k * chunk else |src|
    }

    function ChunkAt(k: nat): seq<char> {
      if Upto(k) <= Upto(k + 1) then src[Upto(k)..Upto(k + 1)] else []
    }
  }

  /** A slot of shared memory: its bytes, and the count stored behind them. */
  datatype Slot = Slot(data: seq<char>, len: nat)

  datatype ReaderPc = WaitFree | Fill | SetLen | PostFull | NextIn | ReaderDone

  datatype WriterPc = WaitFull | Drain | PostFree | NextOut | WriterDone

  /**
   * `pos` is the reader's file position, `m` and `w` the counts fread and fwrite returned, `dst` the output
   * file.  `filled` and `drained` count rounds and serve the proof only.
   */
  datatype State = State(
    ring: seq<Slot>, free: nat, full: nat,
    rpc: ReaderPc, pos: nat, m: nat, inp: nat, filled: nat,
    wpc: WriterPc, w: nat, out: nat, dst: seq<char>, drained: nat)

  ghost predicate Start(c: Config, s: State) {
    && |s.ring| == c.slots && (forall i :: 0 <= i < |s.ring| ==> |s.ring[i].data| == c.chunk)
    && s.free == c.slots && s.full == 0
    && s.rpc == WaitFree && s.pos == 0 && s.inp == 0 && s.filled == 0
    && s.wpc == WaitFull && s.out == 0 && s.dst == [] && s.drained == 0
  }

  // ----- steps -----

  predicate ReaderCan(s: State) {
    !s.rpc.ReaderDone? && (s.rpc.WaitFree? ==> s.free > 0)
  }

  function Min(a: nat, b: nat): nat { if a <= b then a else b }

  /** fread fills the head of the slot and leaves the rest of its bytes as they were. */
  function Filled(data: seq<char>, bytes: seq<char>): seq<char> {
    if |bytes| <= |data| then bytes + data[|bytes|..] else bytes
  }

  /** readbuf_1.2.c. */
  function ReaderStep(c: Config, s: State): State
    requires ReaderCan(s) && s.inp < |s.ring| && s.pos <= |c.src|
    requires c.Valid()
  {
    match s.rpc
    case WaitFree => s.(free := s.free - 1, rpc := Fill)
    case Fill =>
      var n := Min(c.chunk, |c.src| - s.pos);
      var slot := s.ring[s.inp];
      s.(ring := s.ring[s.inp := slot.(data := Filled(slot.data, c.src[s.pos..s.pos + n]))],
         pos := s.pos + n, m := n, rpc := SetLen)
    case SetLen => s.(ring := s.ring[s.inp := s.ring[s.inp].(len := s.m)], rpc := PostFull)
    case PostFull => s.(full := s.full + 1, rpc := NextIn)
    case NextIn =>
      s.(inp := (s.inp + 1) % c.slots, filled := s.filled + 1, rpc := if s.m < c.chunk then ReaderDone else WaitFree)
  }

  predicate WriterCan(s: State) {
    !s.wpc.WriterDone? && (s.wpc.WaitFull? ==> s.full > 0)
  }

  /** writebuf_1.2.c; fwrite writes all it is given. */
  function WriterStep(c: Config, s: State): State
    requires WriterCan(s) && s.out < |s.ring|
    requires c.Valid()
  {
    match s.wpc
    case WaitFull => s.(full := s.full - 1, wpc := Drain)
    case Drain =>
      var slot := s.ring[s.out];
      var n := Min(slot.len, |slot.data|);
      s.(dst := s.dst + slot.data[..n], w := n, wpc := PostFree)
    case PostFree => s.(free := s.free + 1, wpc := NextOut)
    case NextOut =>
      s.(out := (s.out + 1) % c.slots, drained := s.drained + 1, wpc := if s.w < c.chunk then WriterDone else WaitFull)
  }

  // ----- the invariant -----

  /** Chunks the reader has begun, and those it has announced. */
  function Begun(s: State): nat { s.filled + if s.rpc.WaitFree? || s.rpc.ReaderDone? then 0 else 1 }

  function Announced(s: State): nat { s.filled + if s.rpc.NextIn? then 1 else 0 }

  function Fetched(s: State): nat { s.filled + if s.rpc.SetLen? || s.rpc.PostFull? || s.rpc.NextIn? then 1 else 0 }

  /** Chunks the writer has begun, written, and given back. */
  function Taken(s: State): nat { s.drained + if s.wpc.WaitFull? || s.wpc.WriterDone? then 0 else 1 }

  function Written(s: State): nat { s.drained + if s.wpc.PostFree? || s.wpc.NextOut? then 1 else 0 }

  function Returned(s: State): nat { s.drained + if s.wpc.NextOut? then 1 else 0 }

  ghost predicate Counts(c: Config, s: State)
    requires c.Valid()
  {
    && s.free + Begun(s) == c.slots + Returned(s)
    && s.full + Taken(s) == Announced(s)
    && s.filled <= c.Chunks() && s.drained <= s.filled + 1 && Begun(s) <= c.Chunks()
    && (s.rpc.ReaderDone? <==> s.filled == c.Chunks()) && (s.wpc.WriterDone? <==> s.drained == c.Chunks())
    && s.inp == s.filled % c.slots && s.out == s.drained % c.slots && |s.ring| == c.slots
  }

  ghost predicate Files(c: Config, s: State)
    requires c.Valid()
  {
    && s.pos == c.Upto(Fetched(s)) && s.dst == c.src[..c.Upto(Written(s))]
    && (Fetched(s) == s.filled + 1 ==> s.m == |c.ChunkAt(s.filled)|)
    && (Written(s) == s.drained + 1 ==> s.w == |c.ChunkAt(s.drained)|)
  }

  ghost predicate Holds(slot: Slot, bytes: seq<char>, chunk: nat) {
    |slot.data| == chunk && slot.len == |bytes| <= chunk && slot.data[..slot.len] == bytes
  }

  /** Every announced chunk that has not been written yet is in its slot. */
  ghost predicate RingOk(c: Config, s: State)
    requires c.Valid() && |s.ring| == c.slots
  {
    && (forall i :: 0 <= i < c.slots ==> |s.ring[i].data| == c.chunk)
    && (forall k: nat :: Written(s) <= k < Announced(s) ==> Holds(s.ring[k % c.slots], c.ChunkAt(k), c.chunk))
    && (s.rpc.SetLen? ==> s.inp < |s.ring| && s.m <= c.chunk && s.ring[s.inp].data[..s.m] == c.ChunkAt(s.filled))
    && (s.rpc.PostFull? ==> s.inp < |s.ring| && Holds(s.ring[s.inp], c.ChunkAt(s.filled), c.chunk))
  }

  ghost predicate Inv(c: Config, s: State)
    requires c.Valid()
  {
    Counts(c, s) && Files(c, s) && RingOk(c, s)
  }

  // ----- arithmetic of chunks -----

  lemma {:induction false} LastChunk(c: Config, k: nat)
    requires c.Valid() && k < c.Chunks()
    ensures k * c.chunk <= |c.src| && c.Upto(k) == k * c.chunk && c.Upto(k) <= c.Upto(k + 1)
    ensures c.Upto(k + 1) == k * c.chunk + Min(c.chunk, |c.src| - k * c.chunk)
    ensures |c.ChunkAt(k)| == Min(c.chunk, |c.src| - k * c.chunk)
    ensures |c.ChunkAt(k)| < c.chunk <==> k + 1 == c.Chunks()
    ensures k + 1 == c.Chunks() ==> c.Upto(k + 1) == |c.src|
  {
    var q := |c.src| / c.chunk;
    assert |c.src| == q * c.chunk + |c.src| % c.chunk;
    MulLe(k, q, c.chunk);
    MulLe(k + 1, q, c.chunk);
    assert (k + 1) * c.chunk == k * c.chunk + c.chunk;
  }

  /** Chunks less than a round apart lie in different slots. */
  lemma {:induction false} SlotsDiffer(a: nat, b: nat, n: nat)
    requires 0 < n && a < b < a + n
    ensures a % n != b % n
  {
    if a % n == b % n {
      var q := b / n - a / n;
      assert q * n == b - a by { assert b == b / n * n + b % n && a == a / n * n + a % n; assert q * n == b / n * n - a / n * n; }
      MulLe(1, q, n);
      MulLe(q, 0, n);
      assert false;
    }
  }

  lemma {:induction false} NextSlot(a: nat, n: nat)
    requires 0 < n
    ensures (a % n + 1) % n == (a + 1) % n
  {
    var q := a / n;
    assert a == q * n + a % n;
    if a % n + 1 < n {
      DivUnique(a + 1, n, q, a % n + 1);
      DivUnique(a % n + 1, n, 0, a % n + 1);
    } else {
      assert (q + 1) * n == q * n + n;
      DivUnique(a + 1, n, q + 1, 0);
      DivUnique(n, n, 1, 0);
    }
  }

  // ----- every step keeps it -----

  lemma StartOk(c: Config, s: State)
    requires c.Valid() && Start(c, s)
    ensures Inv(c, s)
  {
    DivUnique(0, c.slots, 0, 0);
  }

  lemma {:induction false} ReaderCounts(c: Config, s: State)
    requires c.Valid() && Inv(c, s) && ReaderCan(s) && s.inp < |s.ring| && s.pos <= |c.src|
    ensures Counts(c, ReaderStep(c, s))
  {
    if s.rpc.NextIn? {
      NextSlot(s.filled, c.slots);
      LastChunk(c, s.filled);
    }
  }

  lemma {:induction false} ReaderFiles(c: Config, s: State)
    requires c.Valid() && Inv(c, s) && ReaderCan(s) && s.inp < |s.ring| && s.pos <= |c.src|
    ensures Files(c, ReaderStep(c, s))
  {
    if s.rpc.Fill? { LastChunk(c, s.filled); }
  }

  /** The slot being filled holds no chunk that is still wanted: it is not refilled before it is drained. */
  lemma {:induction false} FillsFreeSlot(c: Config, s: State, k: nat)
    requires c.Valid() && Counts(c, s) && (s.rpc.Fill? || s.rpc.SetLen?) && Returned(s) <= k < Announced(s)
    ensures k % c.slots != s.inp
  {
    SlotsDiffer(k, s.filled, c.slots);
  }

  lemma {:induction false} ReaderRing(c: Config, s: State)
    requires c.Valid() && Inv(c, s) && ReaderCan(s) && s.inp < |s.ring| && s.pos <= |c.src|
    ensures RingOk(c, ReaderStep(c, s))
  {
    var t := ReaderStep(c, s);
    if s.rpc.Fill? { LastChunk(c, s.filled); }
    forall k: nat | Written(t) <= k < Announced(t) ensures Holds(t.ring[k % c.slots], c.ChunkAt(k), c.chunk) {
      ReaderRingAt(c, s, t, k);
    }
  }

  /** The slots announced to the writer keep their chunks. */
  lemma ReaderRingAt(c: Config, s: State, t: State, k: nat)
    requires c.Valid() && Inv(c, s) && ReaderCan(s) && s.inp < |s.ring| && s.pos <= |c.src| && t == ReaderStep(c, s)
    requires Written(t) <= k < Announced(t)
    ensures Holds(t.ring[k % c.slots], c.ChunkAt(k), c.chunk)
  {
    if s.rpc.Fill? || s.rpc.SetLen? { FillsFreeSlot(c, s, k); }
  }

  lemma {:induction false} ReaderKeeps(c: Config, s: State)
    requires c.Valid() && Inv(c, s) && ReaderCan(s)
    ensures s.inp < |s.ring| && s.pos <= |c.src| && Inv(c, ReaderStep(c, s))
  {
    ReaderCounts(c, s);
    ReaderFiles(c, s);
    ReaderRing(c, s);
  }

  /** What the writer drains is the chunk it is at. */
  lemma {:induction false} DrainsChunk(c: Config, s: State)
    requires c.Valid() && Inv(c, s) && s.wpc.Drain?
    ensures s.drained < c.Chunks() && Holds(s.ring[s.out], c.ChunkAt(s.drained), c.chunk)
  {
  }

  lemma {:induction false} WriterCounts(c: Config, s: State)
    requires c.Valid() && Inv(c, s) && WriterCan(s) && s.out < |s.ring|
    ensures Counts(c, WriterStep(c, s))
  {
    if s.wpc.NextOut? {
      NextSlot(s.drained, c.slots);
      LastChunk(c, s.drained);
    }
  }

  lemma {:induction false} WriterFiles(c: Config, s: State)
    requires c.Valid() && Inv(c, s) && WriterCan(s) && s.out < |s.ring|
    ensures Files(c, WriterStep(c, s))
  {
    if s.wpc.Drain? {
      DrainsChunk(c, s);
      LastChunk(c, s.drained);
      assert c.src[..c.Upto(s.drained)] + c.src[c.Upto(s.drained)..c.Upto(s.drained + 1)] == c.src[..c.Upto(s.drained + 1)];
    }
  }

  lemma {:induction false} WriterKeeps(c: Config, s: State)
    requires c.Valid() && Inv(c, s) && WriterCan(s)
    ensures s.out < |s.ring| && Inv(c, WriterStep(c, s))
  {
    WriterCounts(c, s);
    WriterFiles(c, s);
  }

  // ----- runs -----

  datatype Who = Reader | Writer

  ghost predicate Can(s: State, who: Who) {
    match who
    case Reader => ReaderCan(s)
    case Writer => WriterCan(s)
  }

  /** A schedule says who moves at each step; a blocked process cannot be chosen. */
  ghost predicate Follows(c: Config, run: seq<State>, schedule: seq<Who>)
    requires c.Valid()
  {
    && |run| == |schedule| + 1 && Start(c, run[0])
    && forall i :: 0 <= i < |schedule| ==> MovesTo(c, run[i], schedule[i], run[i + 1])
  }

  ghost predicate MovesTo(c: Config, s: State, who: Who, t: State)
    requires c.Valid()
  {
    Can(s, who) && match who
      case Reader => s.inp < |s.ring| && s.pos <= |c.src| && t == ReaderStep(c, s)
      case Writer => s.out < |s.ring| && t == WriterStep(c, s)
  }

  lemma {:induction false} EveryState(c: Config, run: seq<State>, schedule: seq<Who>, i: nat)
    requires c.Valid() && Follows(c, run, schedule) && i < |run|
    ensures Inv(c, run[i])
  {
    if i == 0 {
      StartOk(c, run[0]);
    } else {
      EveryState(c, run, schedule, i - 1);
      assert MovesTo(c, run[i - 1], schedule[i - 1], run[i]);
      match schedule[i - 1]
      case Reader => ReaderKeeps(c, run[i - 1]);
      case Writer => WriterKeeps(c, run[i - 1]);
    }
  }

  /** The steps the two processes still have to take. */
  function Left(c: Config, s: State): int
    requires c.Valid()
  {
    var r := match s.rpc case WaitFree => 0 case Fill => 1 case SetLen => 2 case PostFull => 3 case NextIn => 4 case ReaderDone => 0;
    var w := match s.wpc case WaitFull => 0 case Drain => 1 case PostFree => 2 case NextOut => 3 case WriterDone => 0;
    5 * (c.Chunks() - s.filled) - r + 4 * (c.Chunks() - s.drained) - w
  }

  lemma {:induction false} LeftExactly(c: Config, run: seq<State>, schedule: seq<Who>, i: nat)
    requires c.Valid() && Follows(c, run, schedule) && i < |run|
    ensures Left(c, run[i]) == 9 * c.Chunks() - i
  {
    if i > 0 {
      LeftExactly(c, run, schedule, i - 1);
      assert MovesTo(c, run[i - 1], schedule[i - 1], run[i]);
    }
  }

  predicate Finished(s: State) { s.rpc.ReaderDone? && s.wpc.WriterDone? }

  /**
   * In every interleaving: the output is a prefix of the input; free, full and in-progress slots add up to
   * the ring; the two processes never work on the same slot; some process can move until both are done;
   * every run takes the same number of steps to the end, and then the files are equal.
   */
  lemma {:induction false} CopyIsCorrect(c: Config, run: seq<State>, schedule: seq<Who>, i: nat)
    requires c.Valid() && Follows(c, run, schedule) && i < |run|
    ensures run[i].dst <= c.src
    ensures run[i].free + run[i].full + (Begun(run[i]) - Announced(run[i])) + (Taken(run[i]) - Returned(run[i])) == c.slots
    ensures (run[i].rpc.Fill? || run[i].rpc.SetLen?) && run[i].wpc.Drain? ==> run[i].inp != run[i].out
    ensures Finished(run[i]) || ReaderCan(run[i]) || WriterCan(run[i])
    ensures Finished(run[i]) <==> i == 9 * c.Chunks()
    ensures Finished(run[i]) ==> run[i].dst == c.src
    ensures i <= 9 * c.Chunks()
  {
    var s := run[i];
    EveryState(c, run, schedule, i);
    LeftExactly(c, run, schedule, i);
    if (s.rpc.Fill? || s.rpc.SetLen?) && s.wpc.Drain? { FillsFreeSlot(c, s, s.drained); }
    LastChunk(c, c.Chunks() - 1);
  }
}
