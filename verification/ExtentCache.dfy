/** The one-extent cache of an inode (data.c): a compact form that must agree with the addresses in the node blocks. */
module ExtentCache {
  import opened Geometry
  import opened NodePath

  const MIN_EXTENT_LEN: nat := 16

  /** File blocks fofs .. fofs + len lie at blk, blk + 1, and so on. */
  datatype Extent = Extent(fofs: nat, blk: int, len: nat)
  {
    predicate Covers(b: int) { fofs <= b < fofs + len }
  }

  /** A slot of a node block: the node's number and the slot in it. */
  datatype Slot = Slot(node: nat, ofs: nat)

  /** Where get_dnode_of_data finds the address of block b. */
  function SlotOf(s: Shape, b: nat): Slot
    requires s.Valid() && b < s.Limit()
  {
    PathLeadsBack(s, b);
    var p := GetNodePath(s, b);
    Slot(Last(p.noffset), Last(p.offset))
  }

  /** The address of block b in the node tree. */
  function AddrAt(s: Shape, slots: map<Slot, int>, b: nat): int
    requires s.Valid()
  {
    if b < s.Limit() && SlotOf(s, b) in slots then slots[SlotOf(s, b)] else NULL_ADDR
  }

  /** start_bidx_of_node leads from a slot back to its one block, so different blocks have different slots. */
  lemma {:induction false} SlotsAreDistinct(s: Shape, b: nat, c: nat)
    requires s.Valid() && b < s.Limit() && c < s.Limit() && SlotOf(s, b) == SlotOf(s, c)
    ensures b == c
  {
    SlotLeadsBack(s, b);
    SlotLeadsBack(s, c);
  }

  lemma SlotLeadsBack(s: Shape, b: nat)
    requires s.Valid() && b < s.Limit()
    ensures StartBidx(s, SlotOf(s, b).node) + SlotOf(s, b).ofs == b
  {
    PathLeadsBack(s, b);
  }

  /** An address of the main area: not NULL_ADDR, not NEW_ADDR, and not 1. */
  predicate IsReal(addr: int) { 1 < addr != NEW_ADDR }

  /** Every covered block has a real address, the one the extent says. */
  ghost predicate Agrees(s: Shape, slots: map<Slot, int>, e: Extent)
    requires s.Valid()
  {
    forall b: nat :: e.Covers(b) ==> AddrAt(s, slots, b) == e.blk + (b - e.fofs) && IsReal(AddrAt(s, slots, b))
  }

  lemma {:induction false} SetOne(s: Shape, slots: map<Slot, int>, b: nat, addr: int, c: nat)
    requires s.Valid() && b < s.Limit()
    ensures AddrAt(s, slots[SlotOf(s, b) := addr], c) == if c == b then addr else AddrAt(s, slots, c)
  {
    if c < s.Limit() && c != b && SlotOf(s, b) == SlotOf(s, c) { SlotsAreDistinct(s, b, c); }
  }

  /** One address changes, nothing else. */
  ghost predicate OneChanged(s: Shape, before: map<Slot, int>, after: map<Slot, int>, b: nat, addr: int)
    requires s.Valid()
  {
    forall c: nat :: AddrAt(s, after, c) == if c == b then addr else AddrAt(s, before, c)
  }

  // ----- what an update of one address does to the extent -----

  /** The longer of the two sides that remain when block f leaves the extent; the right one on a tie. */
  function LargerSide(e: Extent, f: nat): (r: Extent)
    requires e.Covers(f)
    ensures !r.Covers(f) && r.fofs >= e.fofs && r.fofs + r.len <= e.fofs + e.len
    ensures r.blk - r.fofs == e.blk - e.fofs
  {
    var left, right := f - e.fofs, e.fofs + e.len - 1 - f;
    if left > right then Extent(e.fofs, e.blk, left) else Extent(f + 1, e.blk + left + 1, right)
  }

  /** The extent after block f was given a new address; an extent that would stay short is given up for good. */
  ghost predicate Follows(e: Extent, r: Extent, f: nat, addr: int, givenUp: bool) {
    if e.len == 0 || (e.len == 1 && f == e.fofs) then
      !givenUp && if addr == NULL_ADDR then r.len == 0 else r == Extent(f, addr, 1)
    else if f + 1 == e.fofs && addr + 1 == e.blk then
      !givenUp && r == Extent(f, addr, e.len + 1)
    else if f == e.fofs + e.len && addr == e.blk + e.len then
      !givenUp && r == e.(len := e.len + 1)
    else
      var kept := if e.Covers(f) then LargerSide(e, f) else e;
      givenUp == (kept.len < 16) && if givenUp then r.len == 0 else r == kept
  }

  /** One extent after another, as the blocks of a stretch are written in order of their addresses. */
  ghost predicate WrittenInOrder(exts: seq<Extent>, f: nat, addr: int, up: bool) {
    && exts != [] && exts[0].len == 0
    && forall i :: 0 <= i < |exts| - 1 ==>
        Follows(exts[i], exts[i + 1], if up then f + i else f + |exts| - 2 - i, if up then addr + i else addr + |exts| - 2 - i, false)
  }

  /** A stretch of any length written forwards or backwards into consecutive addresses becomes one extent. */
  lemma {:induction false} OrderedWritesMerge(exts: seq<Extent>, f: nat, addr: int, up: bool, n: nat)
    requires WrittenInOrder(exts, f, addr, up) && 1 < addr && 0 < n < |exts|
    ensures exts[n] == if up then Extent(f, addr, n) else Extent(f + |exts| - 1 - n, addr + |exts| - 1 - n, n)
  {
    if n > 1 { OrderedWritesMerge(exts, f, addr, up, n - 1); }
    assert Follows(exts[n - 1], exts[n], if up then f + (n - 1) else f + |exts| - 2 - (n - 1),
                   if up then addr + (n - 1) else addr + |exts| - 2 - (n - 1), false);
  }

  /** The larger side is kept, the right one on a tie: no stretch of the old extent without block f is longer. */
  lemma LargerSideIsLongest(e: Extent, f: nat, from: nat, n: nat)
    requires e.Covers(f) && e.fofs <= from && from + n <= e.fofs + e.len && !(from <= f < from + n)
    ensures n <= LargerSide(e, f).len
    ensures f - e.fofs <= e.fofs + e.len - 1 - f ==> f < LargerSide(e, f).fofs
  {
  }

  /** Through every case the extent keeps agreeing with the node tree. */
  lemma {:induction false} AgreementKept(s: Shape, before: map<Slot, int>, after: map<Slot, int>, e: Extent, r: Extent,
      f: nat, addr: int, givenUp: bool)
    requires s.Valid() && Agrees(s, before, e) && OneChanged(s, before, after, f, addr)
    requires (addr == NULL_ADDR || IsReal(addr)) && Follows(e, r, f, addr, givenUp)
    ensures Agrees(s, after, r)
  {
    if e.len > 0 { assert e.Covers(e.fofs); }
    forall b: nat | r.Covers(b)
      ensures AddrAt(s, after, b) == r.blk + (b - r.fofs) && IsReal(AddrAt(s, after, b))
    {
      assert b != f ==> e.Covers(b);
    }
  }

  /** A block that had no address is not covered, so giving it one behind the cache's back does no harm. */
  lemma {:induction false} UncoveredIsHarmless(s: Shape, before: map<Slot, int>, after: map<Slot, int>, e: Extent, f: nat, addr: int)
    requires s.Valid() && Agrees(s, before, e) && OneChanged(s, before, after, f, addr) && AddrAt(s, before, f) == NULL_ADDR
    ensures Agrees(s, after, e)
  {
  }

  datatype Op = Write(b: nat, addr: int) | Punch(b: nat) | Reserve(b: nat) | DirectWrite(b: nat, addr: int)

  class ExtentInode {
    const s: Shape
    var slots: map<Slot, int>
    var ext: Extent
    var noExtent: bool

    /** Whenever the cache is switched off it is also empty, so switching it on again is safe. */
    ghost predicate Valid()
      reads this
    {
      s.Valid() && Agrees(s, slots, ext) && (noExtent ==> ext.len == 0)
    }

    ghost function Addr(b: nat): int
      requires s.Valid()
      reads this`slots
    {
      AddrAt(s, slots, b)
    }

    constructor (s: Shape)
      requires s.Valid()
      ensures Valid() && this.s == s && slots == map[] && !noExtent
    {
      this.s, slots, ext, noExtent := s, map[], Extent(0, 0, 0), false;
    }

    /** __set_data_blkaddr on a slot of a node block. */
    method SetDataBlkaddr(at: Slot, addr: int, ghost b: nat)
      requires s.Valid() && b < s.Limit() && at == SlotOf(s, b)
      modifies this`slots
      ensures OneChanged(s, old(slots), slots, b, addr)
    {
      forall c: nat ensures AddrAt(s, slots[at := addr], c) == if c == b then addr else AddrAt(s, slots, c) {
        SetOne(s, slots, b, addr, c);
      }
      slots := slots[at := addr];
    }

    /** The part of update_extent_cache under the extent lock. */
    method UpdateExtent(fofs: nat, addr: int) returns (needUpdate: bool)
      requires !noExtent
      modifies this`ext, this`noExtent
      ensures Follows(old(ext), ext, fofs, addr, noExtent)
      ensures !needUpdate ==> ext == old(ext) && !noExtent
    {
      needUpdate := true;
      var startFofs: int, endFofs: int := ext.fofs, ext.fofs + ext.len - 1;
      var startBlk, endBlk := ext.blk, ext.blk + ext.len - 1;
      if ext.len == 1 && fofs == startFofs {
        ext := ext.(len := 0);
      }
      if ext.len == 0 {
        if addr != NULL_ADDR {
          ext := Extent(fofs, addr, 1);
        }
        return;
      }
      if fofs == startFofs - 1 && addr == startBlk - 1 {
        ext := Extent(ext.fofs - 1, ext.blk - 1, ext.len + 1);
        return;
      }
      if fofs == endFofs + 1 && addr == endBlk + 1 {
        ext := ext.(len := ext.len + 1);
        return;
      }
      if ext.len > 1 && fofs >= startFofs && fofs <= endFofs {
        if endFofs - fofs < ext.len / 2 {
          ext := ext.(len := fofs - startFofs);
        } else {
          ext := Extent(fofs + 1, startBlk + fofs - startFofs + 1, ext.len - (fofs - startFofs + 1));
        }
      } else {
        needUpdate := false;
      }
      if ext.len < MIN_EXTENT_LEN {
        ext, noExtent, needUpdate := ext.(len := 0), true, true;
      }
    }

    /** update_extent_cache: the block is computed back from the node number and the slot. */
    method UpdateExtentCache(at: Slot, addr: int, ghost b: nat)
      requires s.Valid() && b < s.Limit() && at == SlotOf(s, b) && (addr == NULL_ADDR || IsReal(addr))
      modifies this
      ensures OneChanged(s, old(slots), slots, b, addr)
      ensures old(noExtent) ==> ext == old(ext) && noExtent
      ensures !old(noExtent) ==> Follows(old(ext), ext, b, addr, noExtent)
      ensures old(Valid()) ==> Valid()
    {
      SlotLeadsBack(s, b);
      var fofs := StartBidx(s, at.node) + at.ofs;
      SetDataBlkaddr(at, addr, b);
      if noExtent { return; }
      var needUpdate := UpdateExtent(fofs, addr);
      if Agrees(s, old(slots), old(ext)) {
        AgreementKept(s, old(slots), slots, old(ext), ext, b, addr, noExtent);
      }
    }

    /** reserve_new_block, for a block without an address. */
    method ReserveNewBlock(at: Slot, ghost b: nat)
      requires Valid() && b < s.Limit() && at == SlotOf(s, b) && Addr(b) == NULL_ADDR
      modifies this`slots
      ensures Valid() && OneChanged(s, old(slots), slots, b, NEW_ADDR)
    {
      SetDataBlkaddr(at, NEW_ADDR, b);
      UncoveredIsHarmless(s, old(slots), slots, ext, b, NEW_ADDR);
    }

    /** __allocate_data_block for direct I/O: the cache is switched off around the update, and left on. */
    method AllocateDataBlock(at: Slot, addr: int, ghost b: nat)
      requires Valid() && b < s.Limit() && at == SlotOf(s, b) && Addr(b) == NULL_ADDR && IsReal(addr)
      modifies this
      ensures Valid() && OneChanged(s, old(slots), slots, b, addr) && ext == old(ext) && !noExtent
    {
      SetDataBlkaddr(at, NEW_ADDR, b);
      noExtent := true;
      UpdateExtentCache(at, addr, b);
      noExtent := false;
      UncoveredIsHarmless(s, old(slots), slots, ext, b, addr);
    }

    /** check_extent_cache answers from the extent exactly when it covers the block, and then the truth. */
    method CheckExtentCache(pgofs: nat) returns (hit: bool, addr: int, count: nat)
      requires Valid()
      ensures hit <==> !noExtent && ext.Covers(pgofs)
      ensures hit ==> addr == Addr(pgofs) && IsReal(addr) && count > 0
      ensures hit ==> forall b: nat :: pgofs <= b < pgofs + count ==> Addr(b) == addr + (b - pgofs)
    {
      hit, addr, count := false, 0, 0;
      if noExtent || ext.len == 0 { return; }
      var startFofs, endFofs := ext.fofs, ext.fofs + ext.len - 1;
      if startFofs <= pgofs <= endFofs {
        hit, addr, count := true, ext.blk + (pgofs - startFofs), endFofs - pgofs + 1;
        forall b: nat | pgofs <= b < pgofs + count ensures Addr(b) == addr + (b - pgofs) {
          assert ext.Covers(b);
        }
        assert ext.Covers(pgofs);
      }
    }

    /** One step of a run.  Blocks out of range are refused; an address goes in as the caller allocated it. */
    method Step(op: Op)
      requires Valid() && (op.Write? || op.DirectWrite? ==> IsReal(op.addr))
      modifies this
      ensures Valid()
      ensures op.b >= s.Limit() ==> slots == old(slots)
      ensures op.b < s.Limit() ==> OneChanged(s, old(slots), slots, op.b, NewAddr(s, old(slots), op))
    {
      if op.b >= s.Limit() { return; }
      PathLeadsBack(s, op.b);
      var p := GetNodePath(s, op.b);
      var at := Slot(Last(p.noffset), Last(p.offset));
      var addr := if at in slots then slots[at] else NULL_ADDR;
      match op
      case Write(b, a) => UpdateExtentCache(at, a, b);
      case Punch(b) =>
        if addr != NULL_ADDR { UpdateExtentCache(at, NULL_ADDR, b); }
      case Reserve(b) =>
        if addr == NULL_ADDR { ReserveNewBlock(at, b); }
      case DirectWrite(b, a) =>
        if addr == NULL_ADDR { AllocateDataBlock(at, a, b); }
    }

    /** After any run of operations the cache agrees with a map that knows nothing of it. */
    method Run(ops: seq<Op>)
      requires Valid() && forall i :: 0 <= i < |ops| ==> (ops[i].Write? || ops[i].DirectWrite? ==> IsReal(ops[i].addr))
      modifies this
      ensures Valid()
      ensures forall b: nat :: Addr(b) == Final(s, old(slots), ops, b)
    {
      var i := 0;
      while i < |ops|
        invariant 0 <= i <= |ops| && Valid()
        invariant forall b: nat :: Addr(b) == Final(s, old(slots), ops[..i], b)
      {
        Step(ops[i]);
        assert ops[..i + 1][..i] == ops[..i];
        i := i + 1;
      }
      assert ops[..|ops|] == ops;
    }
  }

  /** What an operation makes of the address of its block. */
  function Outcome(op: Op, addr: int): int {
    match op
    case Write(_, a) => a
    case Punch(_) => NULL_ADDR
    case Reserve(_) => if addr == NULL_ADDR then NEW_ADDR else addr
    case DirectWrite(_, a) => if addr == NULL_ADDR then a else addr
  }

  function NewAddr(s: Shape, slots: map<Slot, int>, op: Op): int
    requires s.Valid()
  {
    Outcome(op, AddrAt(s, slots, op.b))
  }

  /** The reference: the address of one block after a run, from the operations on that block alone. */
  function Final(s: Shape, slots: map<Slot, int>, ops: seq<Op>, b: nat): int
    requires s.Valid()
  {
    if ops == [] then AddrAt(s, slots, b)
    else
      var last := |ops| - 1;
      var before := Final(s, slots, ops[..last], b);
      if ops[last].b == b && b < s.Limit() then Outcome(ops[last], before) else before
  }

  /** In that reference a block has the address written last, none once punched, and its first one without operations. */
  lemma {:induction false} LastOperationCounts(s: Shape, slots: map<Slot, int>, ops: seq<Op>, b: nat, i: nat)
    requires s.Valid() && b < s.Limit() && i <= |ops| && forall k :: i <= k < |ops| ==> ops[k].b != b
    ensures i == 0 ==> Final(s, slots, ops, b) == AddrAt(s, slots, b)
    ensures 0 < i && ops[i - 1].b == b ==>
      && (ops[i - 1].Write? ==> Final(s, slots, ops, b) == ops[i - 1].addr)
      && (ops[i - 1].Punch? ==> Final(s, slots, ops, b) == NULL_ADDR)
      && var before := Final(s, slots, ops[..i - 1], b);
      && (ops[i - 1].Reserve? ==> Final(s, slots, ops, b) == if before == NULL_ADDR then NEW_ADDR else before)
      && (ops[i - 1].DirectWrite? ==> Final(s, slots, ops, b) == if before == NULL_ADDR then ops[i - 1].addr else before)
  {
    if i < |ops| {
      LastOperationCounts(s, slots, ops[..|ops| - 1], b, i);
      if i > 0 { assert ops[..|ops| - 1][..i - 1] == ops[..i - 1]; }
    }
  }
}
