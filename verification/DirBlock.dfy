/** One dentry block (dir.c): a bitmap, an array of entries, and a flat area of name slots. */
module DirBlock {
  import opened Bitmaps

  /** Bytes of a name slot; its value is that of the kernel header. */
  const SLOT_LEN: nat := 8

  datatype Dentry = Dentry(hash: nat, len: nat, ino: int)

  datatype DentryBlock = DentryBlock(bitmap: seq<bool>, dentry: seq<Dentry>, names: seq<char>)

  /** GET_DENTRY_SLOTS. */
  function Slots(len: nat): nat { (len + SLOT_LEN - 1) / SLOT_LEN }

  predicate Sized(nr: nat, b: DentryBlock) {
    |b.bitmap| == nr && |b.dentry| == nr && |b.names| == SLOT_LEN * nr
  }

  /** One past the last slot of the entry that starts at p. */
  function End(b: DentryBlock, p: nat): nat
    requires p < |b.dentry|
  {
    p + Slots(b.dentry[p].len)
  }

  /** The name of the entry that starts at p. */
  function NameAt(b: DentryBlock, p: nat): (s: string)
    requires p < |b.dentry|
  {
    if SLOT_LEN * p + b.dentry[p].len <= |b.names| then b.names[SLOT_LEN * p..SLOT_LEN * p + b.dentry[p].len] else ""
  }

  predicate EntryOk(nr: nat, b: DentryBlock, p: nat)
    requires Sized(nr, b)
  {
    p < nr && 0 < b.dentry[p].len && End(b, p) <= nr && forall k :: p <= k < End(b, p) ==> b.bitmap[k]
  }

  ghost predicate Covered(nr: nat, b: DentryBlock, starts: set<nat>, k: nat)
    requires Sized(nr, b)
  {
    exists p :: p in starts && p < nr && p <= k < End(b, p)
  }

  ghost predicate Apart(nr: nat, b: DentryBlock, starts: set<nat>)
    requires Sized(nr, b)
  {
    forall p, q :: p in starts && q in starts && p < q && p < nr ==> End(b, p) <= q
  }

  /** The set bits are exactly the slots of the entries that begin at `starts`, and no slot is shared. */
  ghost predicate BlockOk(nr: nat, b: DentryBlock, starts: set<nat>) {
    && Sized(nr, b)
    && (forall p :: p in starts ==> EntryOk(nr, b, p))
    && Apart(nr, b, starts)
    && (forall k: nat :: k < nr && b.bitmap[k] ==> Covered(nr, b, starts, k))
  }

  // ----- searching -----

  /** After the end of an entry, the next set bit begins the next entry. */
  lemma NextStart(nr: nat, b: DentryBlock, starts: set<nat>, from: nat)
    requires BlockOk(nr, b, starts) && from <= nr
    requires forall p :: p in starts && p < from ==> End(b, p) <= from
    ensures NextOne(b.bitmap, from) < nr ==> NextOne(b.bitmap, from) in starts
    ensures forall p :: p in starts && from <= p ==> NextOne(b.bitmap, from) <= p
  {
    var k := NextOne(b.bitmap, from);
    if k < nr {
      assert Covered(nr, b, starts, k);
      var p :| p in starts && p < nr && p <= k < End(b, p);
      assert EntryOk(nr, b, p) && b.bitmap[p];
    }
    forall p | p in starts && from <= p ensures k <= p {
      assert EntryOk(nr, b, p) && b.bitmap[p];
    }
  }

  predicate Matches(b: DentryBlock, p: nat, name: string, hash: nat)
    requires p < |b.dentry|
  {
    b.dentry[p].len == |name| && b.dentry[p].hash == hash && NameAt(b, p) == name
  }

  /** A run of clear bits of the given length. */
  ghost predicate Gap(bitmap: seq<bool>, z: nat, n: nat) {
    z + n <= |bitmap| && forall k :: z <= k < z + n ==> !bitmap[k]
  }

  /** n clear bits right behind the entry at p. */
  ghost predicate GapBehind(nr: nat, b: DentryBlock, p: nat, n: nat) {
    p < |b.dentry| && Gap(b.bitmap, End(b, p), n)
  }

  /** Up to the next set bit there is no entry, and a gap behind this one ends there. */
  lemma LongestBehind(nr: nat, b: DentryBlock, starts: set<nat>, pos: nat, end: nat)
    requires BlockOk(nr, b, starts) && pos in starts && pos < nr && end == NextOne(b.bitmap, End(b, pos))
    ensures forall n: nat :: GapBehind(nr, b, pos, n) ==> n <= end - End(b, pos)
    ensures forall p :: p in starts && p < end ==> p <= pos
  {
    forall p | p in starts ensures p < nr && b.bitmap[p] {
      assert EntryOk(nr, b, p);
    }
  }

  /** The next entry, and the longest gap seen so far. */
  method StepOver(nr: nat, b: DentryBlock, pos: nat, max0: nat, ghost starts: set<nat>) returns (end: nat, maxSlots: nat)
    requires BlockOk(nr, b, starts) && pos in starts && pos < nr
    ensures pos < end <= nr && (end < nr ==> end in starts) && forall p :: p in starts && p < end ==> p <= pos
    ensures max0 <= maxSlots && forall n: nat :: GapBehind(nr, b, pos, n) ==> n <= maxSlots
    ensures maxSlots == max0 || exists z: nat :: Gap(b.bitmap, z, maxSlots)
  {
    assert EntryOk(nr, b, pos);
    var nextPos := End(b, pos);
    NextStart(nr, b, starts, nextPos);
    end, maxSlots := NextOne(b.bitmap, nextPos), max0;
    LongestBehind(nr, b, starts, pos, end);
    if maxSlots < end - nextPos {
      maxSlots := end - nextPos;
      assert Gap(b.bitmap, nextPos, maxSlots);
    }
  }

  /** find_in_block: walks from entry to entry.  `maxSlots` grows to the longest gap seen behind an entry. */
  method FindInBlock(nr: nat, b: DentryBlock, name: string, hash: nat, max0: nat, ghost starts: set<nat>)
    returns (pos: nat, maxSlots: nat)
    requires BlockOk(nr, b, starts)
    ensures pos < nr ==> pos in starts && Matches(b, pos, name, hash)
    ensures pos >= nr ==> forall p :: p in starts ==> !Matches(b, p, name, hash)
    ensures maxSlots == max0 || exists z: nat :: Gap(b.bitmap, z, maxSlots)
    ensures max0 <= maxSlots
    ensures pos >= nr ==> forall p, n: nat :: p in starts && GapBehind(nr, b, p, n) ==> n <= maxSlots
  {
    maxSlots := max0;
    pos := NextOne(b.bitmap, 0);
    NextStart(nr, b, starts, 0);
    while pos < nr
      invariant pos <= nr && (pos < nr ==> pos in starts)
      invariant forall p :: p in starts && p < pos ==> !Matches(b, p, name, hash)
      invariant maxSlots == max0 || exists z: nat :: Gap(b.bitmap, z, maxSlots)
      invariant max0 <= maxSlots && forall p, n: nat :: p in starts && p < pos && GapBehind(nr, b, p, n) ==> n <= maxSlots
      decreases nr - pos
    {
      if Matches(b, pos, name, hash) { return; }
      pos, maxSlots := StepOver(nr, b, pos, maxSlots, starts);
    }
  }

  /** room_for_filename: the first gap that is long enough, or nr when there is none. */
  method RoomForFilename(nr: nat, bitmap: seq<bool>, slots: nat) returns (r: nat)
    requires |bitmap| == nr && 0 < slots
    ensures r < nr ==> Gap(bitmap, r, slots)
    ensures forall z: nat :: z < r && z < nr ==> !Gap(bitmap, z, slots)
    ensures r <= nr
  {
    var bitStart := 0;
    while true
      invariant bitStart <= nr
      invariant forall z: nat :: z < bitStart ==> !Gap(bitmap, z, slots)
      decreases nr - bitStart
    {
      var zeroStart := NextZero(bitmap, bitStart);
      forall z: nat | bitStart <= z < zeroStart ensures !Gap(bitmap, z, slots) {
        assert bitmap[z];
      }
      if zeroStart >= nr { return nr; }
      var zeroEnd := NextOne(bitmap, zeroStart);
      if zeroEnd - zeroStart >= slots { return zeroStart; }
      NoGapBefore(bitmap, zeroStart, zeroEnd, slots);
      bitStart := zeroEnd + 1;
      if zeroEnd + 1 >= nr { return nr; }
    }
  }

  /** A gap cannot begin in a run of clear bits that is too short, nor at the set bit that ends it. */
  lemma NoGapBefore(bitmap: seq<bool>, zeroStart: nat, zeroEnd: nat, slots: nat)
    requires zeroStart <= zeroEnd <= |bitmap| && zeroEnd - zeroStart < slots && (zeroEnd < |bitmap| ==> bitmap[zeroEnd])
    ensures forall z: nat :: zeroStart <= z <= zeroEnd ==> !Gap(bitmap, z, slots)
  {
  }

  /** The loops of test_and_set_bit and test_and_clear_bit. */
  method PutBits(bitmap: seq<bool>, pos: nat, n: nat, v: bool) returns (r: seq<bool>)
    requires pos + n <= |bitmap|
    ensures r == Painted(bitmap, pos, n, v)
  {
    r := bitmap;
    var i := 0;
    while i < n
      invariant 0 <= i <= n && |r| == |bitmap|
      invariant forall k :: 0 <= k < |r| ==> r[k] == if pos <= k < pos + i then v else bitmap[k]
    {
      r := r[pos + i := v];
      i := i + 1;
    }
  }

  function Painted(bitmap: seq<bool>, pos: nat, n: nat, v: bool): (r: seq<bool>) {
    seq(|bitmap|, k requires 0 <= k < |bitmap| => if pos <= k < pos + n then v else bitmap[k])
  }

  /** memcpy into the name area. */
  function Written(names: seq<char>, at: nat, name: string): (r: seq<char>)
    requires at + |name| <= |names|
    ensures |r| == |names|
  {
    names[..at] + name + names[at + |name|..]
  }

  // ----- what adding and deleting an entry do to a block -----

  function EmptyBlock(nr: nat): DentryBlock {
    DentryBlock(seq(nr, _ => false), seq(nr, _ => Dentry(0, 0, 0)), seq(SLOT_LEN * nr, _ => '\0'))
  }

  lemma EmptyOk(nr: nat)
    ensures BlockOk(nr, EmptyBlock(nr), {})
  {
  }

  lemma SlotsBound(len: nat)
    ensures len <= SLOT_LEN * Slots(len) && (0 < len ==> 0 < Slots(len))
    ensures 0 < len ==> SLOT_LEN * (Slots(len) - 1) < len
  {
  }

  function Added(nr: nat, b: DentryBlock, pos: nat, d: Dentry, name: string): DentryBlock
    requires Sized(nr, b) && pos < nr && SLOT_LEN * pos + |name| <= SLOT_LEN * nr
  {
    DentryBlock(Painted(b.bitmap, pos, Slots(d.len), true), b.dentry[pos := d], Written(b.names, SLOT_LEN * pos, name))
  }

  lemma FitsArea(nr: nat, pos: nat, len: nat)
    requires pos + Slots(len) <= nr
    ensures SLOT_LEN * pos + len <= SLOT_LEN * nr
  {
  }

  ghost predicate Addable(nr: nat, b: DentryBlock, starts: set<nat>, pos: nat, d: Dentry, name: string) {
    && BlockOk(nr, b, starts) && 0 < d.len == |name|
    && Gap(b.bitmap, pos, Slots(d.len)) && pos + Slots(d.len) <= nr && SLOT_LEN * pos + |name| <= SLOT_LEN * nr
  }

  /** An entry that was there does not reach into a gap, nor start in it. */
  lemma OutsideGap(nr: nat, b: DentryBlock, starts: set<nat>, pos: nat, n: nat, p: nat)
    requires BlockOk(nr, b, starts) && Gap(b.bitmap, pos, n) && 0 < n && p in starts
    ensures p < nr && (End(b, p) <= pos || pos + n <= p)
  {
    assert EntryOk(nr, b, p);
    SlotsBound(b.dentry[p].len);
    var first := b.bitmap[pos];
    assert b.bitmap[p];
  }

  lemma AddedEntries(nr: nat, b: DentryBlock, starts: set<nat>, pos: nat, d: Dentry, name: string, p: nat)
    requires Addable(nr, b, starts, pos, d, name) && p in starts
    ensures p < nr && p != pos && EntryOk(nr, Added(nr, b, pos, d, name), p)
    ensures End(Added(nr, b, pos, d, name), p) == End(b, p) && (End(b, p) <= pos || pos + Slots(d.len) <= p)
  {
    SlotsBound(d.len);
    OutsideGap(nr, b, starts, pos, Slots(d.len), p);
    assert EntryOk(nr, b, p);
  }

  lemma AddedNew(nr: nat, b: DentryBlock, starts: set<nat>, pos: nat, d: Dentry, name: string)
    requires Addable(nr, b, starts, pos, d, name)
    ensures pos < nr && EntryOk(nr, Added(nr, b, pos, d, name), pos)
    ensures NameAt(Added(nr, b, pos, d, name), pos) == name
    ensures End(Added(nr, b, pos, d, name), pos) == pos + Slots(d.len)
  {
    SlotsBound(d.len);
  }

  lemma AddedCovers(nr: nat, b: DentryBlock, starts: set<nat>, pos: nat, d: Dentry, name: string, k: nat)
    requires Addable(nr, b, starts, pos, d, name) && k < nr && Added(nr, b, pos, d, name).bitmap[k]
    ensures Covered(nr, Added(nr, b, pos, d, name), starts + {pos}, k)
  {
    AddedNew(nr, b, starts, pos, d, name);
    if !(pos <= k < pos + Slots(d.len)) {
      assert Covered(nr, b, starts, k);
      var p :| p in starts && p < nr && p <= k < End(b, p);
      AddedEntries(nr, b, starts, pos, d, name, p);
      assert p in starts + {pos};
    } else {
      assert pos in starts + {pos};
    }
  }

  lemma AddedApart(nr: nat, b: DentryBlock, starts: set<nat>, pos: nat, d: Dentry, name: string)
    requires Addable(nr, b, starts, pos, d, name)
    ensures Apart(nr, Added(nr, b, pos, d, name), starts + {pos})
  {
    AddedNew(nr, b, starts, pos, d, name);
    var b' := Added(nr, b, pos, d, name);
    forall p, q | p in starts + {pos} && q in starts + {pos} && p < q && p < nr ensures End(b', p) <= q {
      if p != pos { AddedEntries(nr, b, starts, pos, d, name, p); }
      if q != pos { AddedEntries(nr, b, starts, pos, d, name, q); }
    }
  }

  lemma AddedOk(nr: nat, b: DentryBlock, starts: set<nat>, pos: nat, d: Dentry, name: string)
    requires Addable(nr, b, starts, pos, d, name)
    ensures BlockOk(nr, Added(nr, b, pos, d, name), starts + {pos})
  {
    var b' := Added(nr, b, pos, d, name);
    AddedNew(nr, b, starts, pos, d, name);
    AddedApart(nr, b, starts, pos, d, name);
    forall p | p in starts + {pos} ensures EntryOk(nr, b', p) {
      if p != pos { AddedEntries(nr, b, starts, pos, d, name, p); }
    }
    forall k: nat | k < nr && b'.bitmap[k] ensures Covered(nr, b', starts + {pos}, k) {
      AddedCovers(nr, b, starts, pos, d, name, k);
    }
  }

  /** Writing the new name does not touch the name of an entry that was there. */
  lemma AddedKeepsName(nr: nat, b: DentryBlock, starts: set<nat>, pos: nat, d: Dentry, name: string, p: nat)
    requires Addable(nr, b, starts, pos, d, name) && p in starts
    ensures p < nr && p != pos && NameAt(Added(nr, b, pos, d, name), p) == NameAt(b, p)
  {
    AddedEntries(nr, b, starts, pos, d, name, p);
    assert EntryOk(nr, b, p);
    SlotsBound(d.len);
    SlotsBound(b.dentry[p].len);
    NameKept(b.names, SLOT_LEN * pos, name, SLOT_LEN * p, SLOT_LEN * p + b.dentry[p].len);
  }

  lemma NameKept(names: seq<char>, at: nat, name: string, lo: nat, hi: nat)
    requires at + |name| <= |names| && lo <= hi <= |names| && (hi <= at || at + |name| <= lo)
    ensures Written(names, at, name)[lo..hi] == names[lo..hi]
  {
    var w := Written(names, at, name);
    forall k | lo <= k < hi ensures w[k] == names[k] {
    }
  }

  function Cleared(nr: nat, b: DentryBlock, pos: nat): DentryBlock
    requires Sized(nr, b) && pos < nr
  {
    b.(bitmap := Painted(b.bitmap, pos, Slots(b.dentry[pos].len), false))
  }

  lemma ClearedOk(nr: nat, b: DentryBlock, starts: set<nat>, pos: nat)
    requires BlockOk(nr, b, starts) && pos in starts && pos < nr
    ensures BlockOk(nr, Cleared(nr, b, pos), starts - {pos})
  {
    var b' := Cleared(nr, b, pos);
    assert EntryOk(nr, b, pos);
    forall p | p in starts - {pos} ensures EntryOk(nr, b', p) {
      assert EntryOk(nr, b, p);
      assert End(b, p) <= pos || End(b, pos) <= p;
    }
    forall k: nat | k < nr && b'.bitmap[k] ensures Covered(nr, b', starts - {pos}, k) {
      assert Covered(nr, b, starts, k);
      var p :| p in starts && p < nr && p <= k < End(b, p);
      assert p in starts - {pos};
    }
  }

  /** A block without entries has room at its very start. */
  lemma NoEntriesNoBits(nr: nat, b: DentryBlock, starts: set<nat>, n: nat)
    requires BlockOk(nr, b, starts) && starts == {} && n <= nr
    ensures Gap(b.bitmap, 0, n)
  {
    forall k: nat | k < nr ensures !b.bitmap[k] {
      assert !Covered(nr, b, starts, k);
    }
  }

  /** A block without set bits has no entry. */
  lemma NoBitsNoEntries(nr: nat, b: DentryBlock, starts: set<nat>)
    requires BlockOk(nr, b, starts) && NextOne(b.bitmap, 0) == nr
    ensures starts == {}
  {
    NextStart(nr, b, starts, 0);
    forall p ensures p in starts ==> p < nr {
      assert p in starts ==> EntryOk(nr, b, p);
    }
  }
}
