/** Which file blocks make up each hash bucket of a directory (dir.c), in the machine's own arithmetic. */
module DirLayout {
  import opened Geometry

  /** The number of hash levels; its value is that of the kernel header. */
  const MAX_DIR_HASH_DEPTH: nat := 63
  const HALF: nat := MAX_DIR_HASH_DEPTH / 2
  const WORD: nat := 0x1_0000_0000

  /** An unsigned int. */
  function U32(x: nat): (r: nat) { x % WORD }

  function Pow2(n: nat): (p: nat)
    ensures 0 < p
  {
    if n == 0 then 1 else 2 * Pow2(n - 1)
  }

  function DirBuckets(level: nat): (n: nat)
    ensures 0 < n
  {
    if level < HALF then Pow2(level) else Pow2(HALF - 1)
  }

  function BucketBlocks(level: nat): nat { if level < HALF then 2 else 4 }

  /** The sum in dir_block_index: each product is an unsigned int, the sum is an unsigned long. */
  function LevelBase(level: nat): nat {
    if level == 0 then 0 else LevelBase(level - 1) + U32(DirBuckets(level - 1) * BucketBlocks(level - 1))
  }

  function BlockIndex(level: nat, idx: nat): nat {
    LevelBase(level) + U32(idx * BucketBlocks(level))
  }

  method DirBlockIndex(level: nat, idx: nat) returns (bidx: nat)
    ensures bidx == BlockIndex(level, idx)
  {
    bidx := 0;
    var i := 0;
    while i < level
      invariant 0 <= i <= level && bidx == LevelBase(i)
    {
      bidx := bidx + U32(DirBuckets(i) * BucketBlocks(i));
      i := i + 1;
    }
    bidx := bidx + U32(idx * BucketBlocks(level));
  }

  function Bucket(level: nat, hash: nat): (b: nat) { hash % DirBuckets(level) }

  /** The blocks that adding an entry tries at one level. */
  predicate InBucket(level: nat, hash: nat, block: nat) {
    BlockIndex(level, Bucket(level, hash)) <= block < BlockIndex(level, Bucket(level, hash)) + BucketBlocks(level)
  }

  /** One past the last block of a bucket. */
  function BucketEnd(level: nat, hash: nat): nat {
    BlockIndex(level, Bucket(level, hash)) + BucketBlocks(level)
  }

  /** The blocks that a lookup visits: find_in_level keeps both ends of the range in an unsigned int. */
  predicate Visited(level: nat, hash: nat, block: nat) {
    var bidx := U32(BlockIndex(level, Bucket(level, hash)));
    bidx <= block < U32(bidx + BucketBlocks(level))
  }

  // ----- bases -----

  lemma {:induction false} Pow2Values()
    ensures Pow2(30) == 0x4000_0000 && Pow2(31) == 0x8000_0000
  {
    assert Pow2(4) == 16;
    assert Pow2(8) == 256 by { assert Pow2(6) == 64; }
    assert Pow2(12) == 4096 by { assert Pow2(10) == 1024; }
    assert Pow2(16) == 0x1_0000 by { assert Pow2(14) == 0x4000; }
    assert Pow2(20) == 0x10_0000 by { assert Pow2(18) == 0x4_0000; }
    assert Pow2(24) == 0x100_0000 by { assert Pow2(22) == 0x40_0000; }
    assert Pow2(28) == 0x1000_0000 by { assert Pow2(26) == 0x400_0000; }
  }

  lemma {:induction false} Pow2Order(a: nat, b: nat)
    requires a <= b
    ensures Pow2(a) <= Pow2(b)
  {
    if a < b { Pow2Order(a, b - 1); }
  }

  lemma LevelTerm(level: nat)
    ensures level < HALF ==> U32(DirBuckets(level) * BucketBlocks(level)) == 2 * Pow2(level)
    ensures level >= HALF ==> U32(DirBuckets(level) * BucketBlocks(level)) == 0
  {
    Pow2Values();
    if level < HALF { Pow2Order(level, HALF - 1); }
  }

  /** The first levels double; from level 31 on every product is 2 to the 32nd and adds nothing. */
  lemma {:induction false} Bases(level: nat)
    ensures level <= HALF ==> LevelBase(level) == 2 * Pow2(level) - 2
    ensures level >= HALF ==> LevelBase(level) == WORD - 2
  {
    Pow2Values();
    if level > 0 {
      Bases(level - 1);
      LevelTerm(level - 1);
    }
  }

  lemma BucketBound(level: nat, hash: nat)
    ensures Bucket(level, hash) < DirBuckets(level)
    ensures level < HALF ==> Bucket(level, hash) + 1 <= Pow2(level) <= Pow2(HALF - 1)
    ensures level >= HALF ==> Bucket(level, hash) < Pow2(HALF - 1)
  {
    if level < HALF { Pow2Order(level, HALF - 1); }
  }

  lemma BucketInWord(level: nat, hash: nat)
    ensures U32(Bucket(level, hash) * BucketBlocks(level)) == Bucket(level, hash) * BucketBlocks(level)
    ensures Bucket(level, hash) < DirBuckets(level)
    ensures level < HALF ==> Bucket(level, hash) * 2 + 2 <= 2 * Pow2(level)
    ensures level >= HALF ==> Bucket(level, hash) < 0x4000_0000
  {
    Pow2Values();
    BucketBound(level, hash);
    var k := Bucket(level, hash);
    SmallInWord(k);
  }

  lemma SmallInWord(k: nat)
    requires k < 0x4000_0000
    ensures U32(k * 2) == k * 2 && U32(k * 4) == k * 4
  {
  }

  /** Where the bucket of a hash begins. */
  lemma {:induction false} BucketStart(level: nat, hash: nat)
    ensures level < HALF ==>
      BlockIndex(level, Bucket(level, hash)) == 2 * Pow2(level) - 2 + 2 * Bucket(level, hash)
    ensures level >= HALF ==>
      BlockIndex(level, Bucket(level, hash)) == WORD - 2 + 4 * Bucket(level, hash)
  {
    Bases(level);
    BucketInWord(level, hash);
  }

  // ----- main results -----

  lemma NoWrap(x: nat)
    requires x <= WORD - 4
    ensures U32(x) == x && U32(U32(x) + 2) == x + 2
  {
  }

  lemma ShallowStart(level: nat, hash: nat)
    requires level < HALF
    ensures BlockIndex(level, Bucket(level, hash)) <= WORD - 4
  {
    BucketStart(level, hash);
    BucketInWord(level, hash);
    Pow2Values();
    Pow2Order(level, HALF - 1);
  }

  /** Below level 31 a lookup visits exactly the bucket. */
  lemma {:induction false} ShallowVisits(level: nat, hash: nat, block: nat)
    requires level < HALF
    ensures Visited(level, hash, block) <==> InBucket(level, hash, block)
    ensures InBucket(level, hash, block) ==> block < WORD - 2
  {
    ShallowStart(level, hash);
    NoWrap(BlockIndex(level, Bucket(level, hash)));
  }

  lemma WrapDown(k: nat)
    requires k < 0x4000_0000
    ensures U32(WORD - 2 + 4 * k) == if k == 0 then WORD - 2 else 4 * k - 2
    ensures U32(U32(WORD - 2 + 4 * k) + 4) == 4 * k + 2
  {
  }

  /** From level 31 on it never visits any block of the bucket: both ends wrap around. */
  lemma {:induction false} DeepVisits(level: nat, hash: nat, block: nat)
    requires level >= HALF
    ensures InBucket(level, hash, block) ==> block >= WORD - 2
    ensures Visited(level, hash, block) ==> block < WORD - 2
  {
    BucketStart(level, hash);
    BucketInWord(level, hash);
    WrapDown(Bucket(level, hash));
  }

  /** A lookup sees the bucket of a level exactly when the level is below 31. */
  lemma {:induction false} VisitsBucket(level: nat, hash: nat, block: nat)
    requires InBucket(level, hash, block)
    ensures Visited(level, hash, block) <==> level < HALF
  {
    if level < HALF { ShallowVisits(level, hash, block); } else { DeepVisits(level, hash, block); }
  }

  lemma LevelStart(level: nat, hash: nat)
    requires level <= HALF
    ensures 2 * Pow2(level) - 2 <= BlockIndex(level, Bucket(level, hash))
  {
    BucketStart(level, hash);
    Pow2Values();
  }

  lemma LevelEnd(level: nat, hash: nat)
    requires level < HALF
    ensures BucketEnd(level, hash) <= 2 * Pow2(level + 1) - 2
  {
    BucketStart(level, hash);
    BucketInWord(level, hash);
  }

  /** The buckets of one level all end before the blocks of a later one. */
  lemma {:induction false} LevelsInOrder(l0: nat, h0: nat, l1: nat, h1: nat, block: nat)
    requires l0 < l1 <= HALF && InBucket(l1, h1, block)
    ensures BucketEnd(l0, h0) <= block
  {
    LevelEnd(l0, h0);
    LevelStart(l1, h1);
    Pow2Order(l0 + 1, l1);
  }

  /** Buckets of different levels, or of the same level and different index, share no block, up to level 31. */
  lemma {:induction false} BucketsDisjoint(l0: nat, h0: nat, l1: nat, h1: nat, block: nat)
    requires l0 <= HALF && l1 <= HALF && InBucket(l0, h0, block) && InBucket(l1, h1, block)
    ensures l0 == l1 && Bucket(l0, h0) == Bucket(l1, h1)
  {
    if l0 < l1 {
      LevelsInOrder(l0, h0, l1, h1, block);
    } else if l1 < l0 {
      LevelsInOrder(l1, h1, l0, h0, block);
    } else {
      BucketStart(l0, h0);
      BucketStart(l1, h1);
    }
  }

  lemma {:induction false} EndsInOrder(l0: nat, l1: nat, h: nat)
    requires l0 <= HALF && l1 <= HALF
    ensures l0 <= l1 ==> BucketEnd(l0, h) <= BucketEnd(l1, h)
  {
    if l0 < l1 { LevelsInOrder(l0, h, l1, h, BlockIndex(l1, Bucket(l1, h))); }
  }

  /** From level 31 on every bucket ends past the last 32-bit block index. */
  lemma {:induction false} EndBelowWord(level: nat, h: nat)
    requires BucketEnd(level, h) <= WORD - 2
    ensures level < HALF
  {
    if level >= HALF { DeepVisits(level, h, BlockIndex(level, Bucket(level, h))); }
  }

  /** A block below that index belongs to a bucket of a level below 31. */
  lemma {:induction false} ShallowBlock(level: nat, h: nat, block: nat)
    requires InBucket(level, h, block) && block < WORD - 2
    ensures level < HALF
  {
    if level >= HALF { DeepVisits(level, h, block); }
  }

  /** Past level 31 all levels lie on top of each other. */
  lemma {:induction false} DeepLevelsCoincide(l0: nat, l1: nat, hash: nat, block: nat)
    requires l0 >= HALF && l1 >= HALF
    ensures InBucket(l0, hash, block) <==> InBucket(l1, hash, block)
  {
    BucketStart(l0, hash);
    BucketStart(l1, hash);
  }
}
