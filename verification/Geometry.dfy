/** Volume geometry and main-area block addresses. */
module Geometry {

  const NULL_ADDR: int := 0
  const NEW_ADDR: int := 0xFFFF_FFFF

  /**
   * Sizes fixed at mount.  `base` is the block address of segment 0 of the main area; `carried` is
   * what valid_block_count of the mounted checkpoint exceeds the written blocks by (reserved blocks).
   */
  datatype Volume = Volume(segs: nat, blocksPerSeg: nat, segsPerSec: nat, secsPerZone: nat, base: int, carried: int)
  {
    ghost predicate Valid() {
      && 0 < segs && 0 < blocksPerSeg && 0 < segsPerSec && 0 < secsPerZone
      && segs % segsPerSec == 0 && blocksPerSeg % 8 == 0
      && 1 < base && base + segs * blocksPerSeg <= NEW_ADDR
    }

    function Secs(): nat
      requires 0 < segsPerSec
    {
      segs / segsPerSec
    }

    function SecOf(seg: nat): nat
      requires 0 < segsPerSec
    {
      seg / segsPerSec
    }

    function ZoneOf(seg: nat): nat
      requires 0 < segsPerSec && 0 < secsPerZone
    {
      seg / segsPerSec / secsPerZone
    }
  }

  /** A main-area block: segment number and offset inside the segment. */
  datatype Block = Block(seg: nat, off: nat)

  ghost predicate InMain(v: Volume, b: Block) {
    b.seg < v.segs && b.off < v.blocksPerSeg
  }

  /** START_BLOCK plus the offset. */
  function AddrOf(v: Volume, b: Block): int {
    v.base + b.seg * v.blocksPerSeg + b.off
  }

  /** GET_SEGNO and the in-segment offset of a main-area address. */
  function BlockOf(v: Volume, addr: int): Block
    requires 0 < v.blocksPerSeg && v.base <= addr
  {
    Block((addr - v.base) / v.blocksPerSeg, (addr - v.base) % v.blocksPerSeg)
  }

  lemma MulLe(a: int, b: int, d: nat)
    ensures a <= b ==> a * d <= b * d
  {
  }

  lemma {:induction false} DivUnique(n: nat, d: nat, q: nat, r: nat)
    requires 0 < d && r < d && n == q * d + r
    ensures n / d == q && n % d == r
  {
    var k := n / d - q;
    assert n == (n / d) * d + n % d;
    assert k * d == r - n % d by { assert (n / d - q) * d == (n / d) * d - q * d; }
    MulLe(1, k, d);
    MulLe(k, -1, d);
  }

  lemma SegmentEnd(v: Volume, b: Block)
    requires v.Valid() && InMain(v, b)
    ensures b.seg * v.blocksPerSeg + b.off < v.segs * v.blocksPerSeg
  {
    assert (b.seg + 1) * v.blocksPerSeg <= v.segs * v.blocksPerSeg;
    assert (b.seg + 1) * v.blocksPerSeg == b.seg * v.blocksPerSeg + v.blocksPerSeg;
  }

  /** Addresses of main-area blocks are never a reserved value, and give the block back. */
  lemma {:induction false} AddressRoundTrip(v: Volume, b: Block)
    requires v.Valid() && InMain(v, b)
    ensures AddrOf(v, b) != NULL_ADDR && AddrOf(v, b) != NEW_ADDR && v.base <= AddrOf(v, b)
    ensures BlockOf(v, AddrOf(v, b)) == b
  {
    SegmentEnd(v, b);
    assert 0 <= b.seg * v.blocksPerSeg;
    DivUnique(AddrOf(v, b) - v.base, v.blocksPerSeg, b.seg, b.off);
  }

  /** And every address of the main area is the address of exactly that block. */
  lemma {:induction false} BlockRoundTrip(v: Volume, addr: int)
    requires v.Valid() && v.base <= addr < v.base + v.segs * v.blocksPerSeg
    ensures InMain(v, BlockOf(v, addr)) && AddrOf(v, BlockOf(v, addr)) == addr
  {
    var n := addr - v.base;
    assert n == (n / v.blocksPerSeg) * v.blocksPerSeg + n % v.blocksPerSeg;
    MulLe(v.segs, n / v.blocksPerSeg, v.blocksPerSeg);
  }

  /** Addresses run on from block to block and from segment to segment. */
  lemma AddressesRunOn(v: Volume, b: Block)
    requires v.Valid() && InMain(v, b)
    ensures AddrOf(v, Block(0, 0)) == v.base
    ensures AddrOf(v, if b.off + 1 < v.blocksPerSeg then Block(b.seg, b.off + 1) else Block(b.seg + 1, 0)) == AddrOf(v, b) + 1
  {
    assert (b.seg + 1) * v.blocksPerSeg == b.seg * v.blocksPerSeg + v.blocksPerSeg;
  }

  /** Sections partition the segments. */
  lemma {:induction false} SectionOf(v: Volume, seg: nat, sec: nat)
    requires v.Valid()
    ensures v.SecOf(seg) == sec <==> sec * v.segsPerSec <= seg < sec * v.segsPerSec + v.segsPerSec
  {
    var d := v.segsPerSec;
    assert seg == (seg / d) * d + seg % d;
    if sec * d <= seg < sec * d + d {
      DivUnique(seg, d, sec, seg - sec * d);
    }
  }

  lemma {:induction false} SectionBound(v: Volume, sec: nat)
    requires v.Valid() && sec < v.Secs()
    ensures sec * v.segsPerSec + v.segsPerSec <= v.segs
  {
    assert v.segs == v.Secs() * v.segsPerSec;
    assert (sec + 1) * v.segsPerSec <= v.Secs() * v.segsPerSec;
    assert (sec + 1) * v.segsPerSec == sec * v.segsPerSec + v.segsPerSec;
  }

  lemma {:induction false} SectionInRange(v: Volume, seg: nat)
    requires v.Valid() && seg < v.segs
    ensures v.SecOf(seg) < v.Secs()
    ensures v.SecOf(seg) * v.segsPerSec <= seg < v.SecOf(seg) * v.segsPerSec + v.segsPerSec <= v.segs
  {
    SectionOf(v, seg, v.SecOf(seg));
    assert v.segs == v.Secs() * v.segsPerSec;
    MulLe(v.Secs(), v.SecOf(seg), v.segsPerSec);
    SectionBound(v, v.SecOf(seg));
  }
}
