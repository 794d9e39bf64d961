/**
 * The orphan inode list (checkpoint.c): a sorted list in memory, stored in blocks behind the head of
 * a checkpoint pack and read back at mount.  `n_orphans` also counts inodes acquired but not yet
 * listed, and it is what decides how many blocks a pack reserves; OrphanRuns.dfy shows that no pack is
 * written while the two differ.
 */
module Orphans {
  import opened Geometry
  import opened Lists

  ghost predicate Increasing(s: seq<nat>) {
    forall i, j :: 0 <= i < j < |s| ==> s[i] < s[j]
  }

  function OrphanBlocks(n: nat, perBlock: nat): nat
    requires 0 < perBlock
  {
    (n + perBlock - 1) / perBlock
  }

  /** Consecutive chunks of at most perBlock entries. */
  function Chunks(s: seq<nat>, perBlock: nat): (r: seq<seq<nat>>)
    requires 0 < perBlock
  {
    if s == [] then [] else if |s| <= perBlock then [s] else [s[..perBlock]] + Chunks(s[perBlock..], perBlock)
  }

  function Concat(b: seq<seq<nat>>): seq<nat> {
    if b == [] then [] else b[0] + Concat(b[1..])
  }

  lemma {:induction false} ConcatSplit(a: seq<seq<nat>>, b: seq<seq<nat>>)
    ensures Concat(a + b) == Concat(a) + Concat(b)
  {
    if a == [] {
      assert a + b == b;
    } else {
      assert (a + b)[0] == a[0] && (a + b)[1..] == a[1..] + b;
      ConcatSplit(a[1..], b);
    }
  }

  lemma {:induction false} ChunksConcat(s: seq<nat>, perBlock: nat)
    requires 0 < perBlock
    ensures Concat(Chunks(s, perBlock)) == s
    decreases |s|
  {
    if |s| > perBlock {
      ChunksConcat(s[perBlock..], perBlock);
      assert Chunks(s, perBlock)[1..] == Chunks(s[perBlock..], perBlock);
      assert s[..perBlock] + s[perBlock..] == s;
    } else if s != [] {
      assert Chunks(s, perBlock)[1..] == [] && s + [] == s;
    }
  }

  /** Every block of the list but the last is full, and none is empty. */
  lemma {:induction false} BlocksAreFull(s: seq<nat>, perBlock: nat, i: nat)
    requires 0 < perBlock && i < |Chunks(s, perBlock)|
    ensures 0 < |Chunks(s, perBlock)[i]| <= perBlock
    ensures i + 1 < |Chunks(s, perBlock)| ==> |Chunks(s, perBlock)[i]| == perBlock
    decreases |s|
  {
    if |s| > perBlock && i > 0 { BlocksAreFull(s[perBlock..], perBlock, i - 1); }
  }

  lemma BlocksStep(n: nat, perBlock: nat)
    requires 0 < perBlock
    ensures n >= perBlock ==> OrphanBlocks(n, perBlock) == 1 + OrphanBlocks(n - perBlock, perBlock)
    ensures 0 < n <= perBlock ==> OrphanBlocks(n, perBlock) == 1
    ensures n == 0 ==> OrphanBlocks(n, perBlock) == 0
  {
    var a := n + perBlock - 1;
    assert a == (a / perBlock) * perBlock + a % perBlock;
    if n >= perBlock {
      assert a - perBlock == (a / perBlock - 1) * perBlock + a % perBlock;
      DivUnique(a - perBlock, perBlock, a / perBlock - 1, a % perBlock);
    } else if 0 < n {
      DivUnique(a, perBlock, 1, n - 1);
    } else {
      DivUnique(a, perBlock, 0, a);
    }
  }

  lemma {:induction false} ChunksCount(s: seq<nat>, perBlock: nat)
    requires 0 < perBlock
    ensures |Chunks(s, perBlock)| == OrphanBlocks(|s|, perBlock)
    decreases |s|
  {
    BlocksStep(|s|, perBlock);
    if |s| > perBlock { ChunksCount(s[perBlock..], perBlock); }
  }

  lemma ChunksStep(s: seq<nat>, perBlock: nat, take: nat)
    requires 0 < perBlock && s != [] && take == if |s| <= perBlock then |s| else perBlock
    ensures Chunks(s, perBlock) == [s[..take]] + Chunks(s[take..], perBlock)
    ensures OrphanBlocks(|s|, perBlock) == 1 + OrphanBlocks(|s[take..]|, perBlock)
  {
    BlocksStep(|s|, perBlock);
    BlocksStep(0, perBlock);
    if |s| <= perBlock { assert s[..take] == s && s[take..] == []; }
  }

  lemma FillBlock(b: seq<seq<nat>>, i: nat, x: seq<nat>)
    requires i < |b|
    ensures b[i := x][..i + 1] == b[..i] + [x]
    ensures b[i := x][i + 1..] == b[i..][1..]
  {
  }

  lemma BlocksMonotone(a: nat, b: nat, perBlock: nat)
    requires 0 < perBlock && a <= b
    ensures OrphanBlocks(a, perBlock) <= OrphanBlocks(b, perBlock)
    decreases a
  {
    BlocksStep(a, perBlock);
    BlocksStep(b, perBlock);
    if a > perBlock { BlocksMonotone(a - perBlock, b - perBlock, perBlock); }
  }

  // ----- the list -----

  lemma ConsIncreasing(a: nat, s: seq<nat>)
    requires Increasing(s) && forall x :: x in s ==> a < x
    ensures Increasing([a] + s)
  {
    forall i, j | 0 <= i < j < |s| + 1 ensures ([a] + s)[i] < ([a] + s)[j] {
      assert s[j - 1] in s;
    }
  }

  lemma IncreasingHead(s: seq<nat>)
    requires Increasing(s) && s != []
    ensures Increasing(s[1..]) && s == [s[0]] + s[1..]
    ensures forall x :: x in s[1..] ==> s[0] < x
  {
  }

  /** add_orphan_inode: sorted insertion, at most once. */
  function Inserted(s: seq<nat>, ino: nat): (r: seq<nat>) {
    if s == [] then [ino] else if s[0] == ino then s else if s[0] > ino then [ino] + s else [s[0]] + Inserted(s[1..], ino)
  }

  lemma {:induction false} InsertedOk(s: seq<nat>, ino: nat)
    requires Increasing(s)
    ensures Increasing(Inserted(s, ino)) && |Inserted(s, ino)| == |s| + (if ino in s then 0 else 1)
    ensures forall x :: x in Inserted(s, ino) <==> x in s || x == ino
  {
    if s != [] {
      IncreasingHead(s);
      if s[0] > ino {
        ConsIncreasing(ino, s);
      } else if s[0] < ino {
        InsertedOk(s[1..], ino);
        ConsIncreasing(s[0], Inserted(s[1..], ino));
      }
    }
  }

  lemma {:induction false} WithoutIncreasing(s: seq<nat>, ino: nat)
    requires Increasing(s)
    ensures Increasing(Without(s, ino)) && |Without(s, ino)| == |s| - (if ino in s then 1 else 0)
    ensures forall x :: x in Without(s, ino) <==> x in s && x != ino
  {
    if s != [] {
      IncreasingHead(s);
      if s[0] != ino {
        WithoutIncreasing(s[1..], ino);
        ConsIncreasing(s[0], Without(s[1..], ino));
      }
    }
  }

  /** Where the insertion loop stands at position i. */
  lemma InsertedAt(s: seq<nat>, ino: nat, i: nat)
    requires i <= |s|
    ensures s[..i] + s[i..] == s
    ensures var r := s[..i] + Inserted(s[i..], ino);
      if i == |s| || s[i] > ino then r == s[..i] + [ino] + s[i..]
      else if s[i] == ino then r == s
      else r == s[..i + 1] + Inserted(s[i + 1..], ino)
  {
    if i < |s| && s[i] < ino {
      assert s[i..][1..] == s[i + 1..] && s[..i + 1] == s[..i] + [s[i]];
    }
  }

  /** Where the deletion loop stands at position i. */
  lemma WithoutAt(s: seq<nat>, ino: nat, i: nat)
    requires i <= |s|
    ensures s[..i] + s[i..] == s
    ensures var r := s[..i] + Without(s[i..], ino);
      if i == |s| then r == s
      else if s[i] == ino then r == s[..i] + s[i + 1..]
      else r == s[..i + 1] + Without(s[i + 1..], ino)
  {
    if i < |s| {
      assert s[i..][1..] == s[i + 1..] && s[..i + 1] == s[..i] + [s[i]];
    }
  }

  // ----- the blocks of a pack -----

  /** The blocks after writing the list over what they held: those it does not fill stay as they were. */
  function Written(inos: seq<nat>, stale: seq<seq<nat>>, perBlock: nat): seq<seq<nat>>
    requires 0 < perBlock && OrphanBlocks(|inos|, perBlock) <= |stale|
  {
    Chunks(inos, perBlock) + stale[OrphanBlocks(|inos|, perBlock)..]
  }

  /** When the reserved blocks are those the list needs, reading them back gives the list, whatever they held. */
  lemma {:induction false} WrittenReadsBack(inos: seq<nat>, stale: seq<seq<nat>>, perBlock: nat)
    requires 0 < perBlock && |stale| == OrphanBlocks(|inos|, perBlock)
    ensures Concat(Written(inos, stale, perBlock)) == inos
  {
    ChunksConcat(inos, perBlock);
    assert Written(inos, stale, perBlock) == Chunks(inos, perBlock);
  }

  class OrphanList {
    const perBlock: nat
    const maxOrphans: nat
    var inos: seq<nat>
    var nOrphans: nat

    ghost predicate Valid()
      reads this
    {
      0 < perBlock && Increasing(inos) && |inos| <= nOrphans <= maxOrphans
    }

    /** acquire_orphan_inode. */
    method Acquire() returns (ok: bool)
      requires Valid()
      modifies this`nOrphans
      ensures Valid() && ok == (old(nOrphans) < maxOrphans)
      ensures nOrphans == old(nOrphans) + (if ok then 1 else 0)
    {
      ok := nOrphans < maxOrphans;
      if ok { nOrphans := nOrphans + 1; }
    }

    /** release_orphan_inode: gives back an acquisition that was not turned into an entry. */
    method Release()
      requires Valid() && |inos| < nOrphans
      modifies this`nOrphans
      ensures Valid() && nOrphans == old(nOrphans) - 1
    {
      nOrphans := nOrphans - 1;
    }

    /** add_orphan_inode. */
    method Add(ino: nat)
      requires Valid() && (ino !in inos ==> |inos| < nOrphans)
      modifies this`inos
      ensures Valid() && inos == Inserted(old(inos), ino)
    {
      InsertedOk(inos, ino);
      inos := InsertSorted(inos, ino);
    }

    /** The walk of add_orphan_inode over the list. */
    static method InsertSorted(s: seq<nat>, ino: nat) returns (r: seq<nat>)
      ensures r == Inserted(s, ino)
    {
      var i := 0;
      assert s[..0] + Inserted(s[0..], ino) == Inserted(s, ino);
      while i < |s|
        invariant 0 <= i <= |s|
        invariant Inserted(s, ino) == s[..i] + Inserted(s[i..], ino)
      {
        InsertedAt(s, ino, i);
        if s[i] == ino { return s; }
        if s[i] > ino { break; }
        i := i + 1;
      }
      InsertedAt(s, ino, i);
      r := s[..i] + [ino] + s[i..];
    }

    /** remove_orphan_inode. */
    method Remove(ino: nat)
      requires Valid()
      modifies this
      ensures Valid() && inos == Without(old(inos), ino)
      ensures nOrphans == old(nOrphans) - (if ino in old(inos) then 1 else 0)
    {
      WithoutIncreasing(inos, ino);
      var found, rest := DeleteFirst(inos, ino);
      if found {
        inos := rest;
        nOrphans := nOrphans - 1;
      }
    }

    /** The walk of remove_orphan_inode over the list. */
    static method DeleteFirst(s: seq<nat>, ino: nat) returns (found: bool, r: seq<nat>)
      ensures r == Without(s, ino) && (found <==> ino in s) && (!found ==> r == s)
    {
      var i := 0;
      assert s[..0] + Without(s[0..], ino) == Without(s, ino);
      while i < |s|
        invariant 0 <= i <= |s|
        invariant Without(s, ino) == s[..i] + Without(s[i..], ino)
        invariant forall k :: 0 <= k < i ==> s[k] != ino
      {
        WithoutAt(s, ino, i);
        if s[i] == ino { return true, s[..i] + s[i + 1..]; }
        i := i + 1;
      }
      WithoutAt(s, ino, i);
      found, r := false, s;
    }

    /**
     * write_orphan_inodes into the blocks of a pack, whose former contents are `stale`.  Blocks that
     * are reserved by n_orphans but not filled by the list keep what they held.
     */
    method Write(stale: seq<seq<nat>>) returns (blocks: seq<seq<nat>>)
      requires Valid() && |stale| == OrphanBlocks(nOrphans, perBlock)
      ensures |blocks| == |stale| && OrphanBlocks(|inos|, perBlock) <= |stale|
      ensures blocks == Written(inos, stale, perBlock)
    {
      BlocksMonotone(|inos|, nOrphans, perBlock);
      ChunksCount(inos, perBlock);
      blocks := stale;
      var index: nat := 0;
      var rest := inos;
      while rest != []
        invariant index <= |stale| == |blocks|
        invariant OrphanBlocks(|inos|, perBlock) == index + OrphanBlocks(|rest|, perBlock)
        invariant Chunks(inos, perBlock) == blocks[..index] + Chunks(rest, perBlock)
        invariant blocks[index..] == stale[index..]
        decreases |rest|
      {
        var take := if |rest| <= perBlock then |rest| else perBlock;
        ChunksStep(rest, perBlock, take);
        FillBlock(blocks, index, rest[..take]);
        blocks := blocks[index := rest[..take]];
        rest := rest[take..];
        index := index + 1;
      }
      BlocksStep(0, perBlock);
      assert blocks == blocks[..index] + blocks[index..];
    }

    /** recover_orphan_inodes: every entry of every reserved block, in order. */
    static method Recover(blocks: seq<seq<nat>>) returns (found: seq<nat>)
      ensures found == Concat(blocks)
    {
      found := [];
      var i := 0;
      while i < |blocks|
        invariant 0 <= i <= |blocks| && found == Concat(blocks[..i])
      {
        var j := 0;
        while j < |blocks[i]|
          invariant 0 <= j <= |blocks[i]| && found == Concat(blocks[..i]) + blocks[i][..j]
        {
          found := found + [blocks[i][j]];
          j := j + 1;
        }
        assert blocks[..i + 1] == blocks[..i] + [blocks[i]] && Concat([blocks[i]]) == blocks[i] + [];
        ConcatSplit(blocks[..i], [blocks[i]]);
        i := i + 1;
      }
      assert blocks[..i] == blocks;
    }

    /** A pack written when no acquisition is pending gives the list back at mount. */
    method WriteAndRecover(stale: seq<seq<nat>>) returns (found: seq<nat>)
      requires Valid() && |inos| == nOrphans && |stale| == OrphanBlocks(nOrphans, perBlock)
      ensures found == inos
    {
      var blocks := Write(stale);
      found := Recover(blocks);
      WrittenReadsBack(inos, stale, perBlock);
    }
  }
}
