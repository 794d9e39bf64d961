/**
 * Truncating a file (file.c, node.c): the data slots of one direct node, then whole direct nodes,
 * then whole subtrees, for any tree with any nodes missing.
 */
module Truncate {
  import opened Geometry
  import opened NodePath
  import opened NodeTree
  import opened FileMap

  // ----- the block account -----

  /** total_valid_block_count, and the blocks given back so far (data blocks and node blocks). */
  datatype Account = Account(valid: int, released: multiset<int>)

  /** Blocks move from the file to `released` one by one, and the counter drops by one for each. */
  ghost predicate Balanced(a: Account, before: multiset<int>, b: Account, after: multiset<int>) {
    && b.released + after == a.released + before
    && b.valid + |b.released| == a.valid + |a.released|
  }

  /** Every block a file holds: data blocks and node blocks. */
  function OwnedFile(f: File): multiset<int> {
    OwnedAddrs(f.addrs) + OwnedKids(f.roots)
  }

  /** What is true of one part of a file is true of the whole. */
  lemma Widen(a: Account, x: multiset<int>, b: Account, y: multiset<int>, whole: multiset<int>, whole': multiset<int>)
    requires Balanced(a, x, b, y) && whole' + x == whole + y
    ensures Balanced(a, whole, b, whole')
  {
    forall z: int ensures (b.released + whole')[z] == (a.released + whole)[z] {
      assert (b.released + y)[z] == (a.released + x)[z];
      assert (whole' + x)[z] == (whole + y)[z];
    }
  }

  lemma Chain(a: Account, x: multiset<int>, b: Account, y: multiset<int>, c: Account, z: multiset<int>)
    requires Balanced(a, x, b, y) && Balanced(b, y, c, z)
    ensures Balanced(a, x, c, z)
  {
  }

  lemma SlotChanged(a: Account, kids: seq<Tree>, i: nat, t: Tree, b: Account)
    requires i < |kids| && Balanced(a, Owned(kids[i]), b, Owned(t))
    ensures Balanced(a, OwnedKids(kids), b, OwnedKids(kids[i := t]))
  {
    OwnedKidsUpdate(kids, i, t);
    Widen(a, Owned(kids[i]), b, Owned(t), OwnedKids(kids), OwnedKids(kids[i := t]));
  }

  /** One kid given back entirely and its slot cleared. */
  lemma KidGone(a0: Account, before: multiset<int>, a: Account, kids: seq<Tree>, i: nat, b: Account)
    requires i < |kids| && Balanced(a0, before, a, OwnedKids(kids)) && Balanced(a, Owned(kids[i]), b, multiset{})
    ensures Balanced(a0, before, b, OwnedKids(kids[i := Missing]))
  {
    SlotChanged(a, kids, i, Missing, b);
  }

  lemma NodeKept(a0: Account, t: Tree, a: Account, kids: seq<Tree>)
    requires t.Inner? && Balanced(a0, OwnedKids(t.kids), a, OwnedKids(kids))
    ensures Balanced(a0, Owned(t), a, Owned(Inner(t.blk, kids)))
  {
    assert a.released + (OwnedKids(kids) + multiset{t.blk}) == (a.released + OwnedKids(kids)) + multiset{t.blk};
  }

  lemma NodeGone(a0: Account, t: Tree, a: Account, b: Account)
    requires t.Inner? && Balanced(a0, OwnedKids(t.kids), a, multiset{})
    requires b.released == a.released + multiset{t.blk} && b.valid == a.valid - 1
    ensures Balanced(a0, Owned(t), b, multiset{})
  {
    assert b.released + multiset{} == (a.released + multiset{}) + multiset{t.blk};
  }

  lemma Swap(released: multiset<int>, x: int, after: multiset<int>, before: multiset<int>)
    requires x != NULL_ADDR && after + One(x) == before + One(NULL_ADDR)
    ensures (released + multiset{x}) + after == released + before
    ensures |released + multiset{x}| == |released| + 1
  {
    assert before + One(NULL_ADDR) == before;
    assert (released + multiset{x}) + after == released + (after + One(x));
  }

  // ----- what the loops do to a node -----

  /** r is t with its kids from `ofs` on removed, and removed itself when `ofs` is 0. */
  ghost predicate KidsFrom(s: Shape, t: Tree, r: Tree, ofs: nat) {
    if t.Missing? || ofs == 0 then r.Missing? else t.Inner? && r.Inner? && r.blk == t.blk && DroppedFrom(s, t.kids, r.kids, ofs)
  }

  ghost predicate DroppedFrom(s: Shape, kids: seq<Tree>, r: seq<Tree>, ofs: nat) {
    |kids| == |r| == s.nids && forall i :: 0 <= i < s.nids ==> r[i] == if i < ofs then kids[i] else Missing
  }

  lemma {:induction false} KidsFromCuts(s: Shape, depth: nat, t: Tree, r: Tree, ofs: nat)
    requires s.Valid() && depth > 1 && Shaped(s.blockAddrs, s.nids, depth, t) && KidsFrom(s, t, r, ofs)
    ensures CutAt(s.blockAddrs, s.nids, depth, t, r, ofs * Size(s.blockAddrs, s.nids, depth - 1) + 0)
  {
    if t.Inner? && ofs > 0 {
      if ofs < s.nids { CutAll(s.blockAddrs, s.nids, depth - 1, t.kids[ofs]); }
      InnerCut(s.blockAddrs, s.nids, depth, t, r, ofs, 0);
    }
  }

  /** The slot below which nothing has to be kept: slot 0 of a direct node, or of a missing one. */
  ghost predicate AtLeafStart(s: Shape, t: Tree, off: seq<nat>) {
    && InRange(s.blockAddrs, s.nids, off) && Shaped(s.blockAddrs, s.nids, |off|, t)
    && (off[|off| - 1] == 0 || !HasLeaf(s.blockAddrs, s.nids, t, off))
  }

  /** From the first index of the direct node on, nothing is stored up to the slot itself. */
  lemma {:induction false} LeafStartGap(s: Shape, t: Tree, off: seq<nat>)
    requires s.Valid() && AtLeafStart(s, t, off)
    ensures off[|off| - 1] <= Index(s.blockAddrs, s.nids, off)
    ensures Gap(s.blockAddrs, s.nids, |off|, t,
                Index(s.blockAddrs, s.nids, off) - off[|off| - 1], Index(s.blockAddrs, s.nids, off))
  {
    IndexBound(s.blockAddrs, s.nids, off);
    if off[|off| - 1] != 0 { NoLeafGap(s.blockAddrs, s.nids, t, off); }
  }

  lemma {:induction false} IndirectTruncated(s: Shape, t: Tree, r: Tree, off: seq<nat>)
    requires s.Valid() && |off| == 2 && AtLeafStart(s, t, off) && KidsFrom(s, t, r, off[0])
    ensures CutAt(s.blockAddrs, s.nids, 2, t, r, Index(s.blockAddrs, s.nids, off))
  {
    KidsFromCuts(s, 2, t, r, off[0]);
    LeafStartGap(s, t, off);
    CutOverGap(s.blockAddrs, s.nids, 2, t, r, off[0] * Size(s.blockAddrs, s.nids, 1) + 0, Index(s.blockAddrs, s.nids, off));
  }

  /** Double indirect, first direct node of a kid. */
  lemma {:induction false} DindirectFirst(s: Shape, t: Tree, r: Tree, off: seq<nat>)
    requires s.Valid() && |off| == 3 && AtLeafStart(s, t, off) && KidsFrom(s, t, r, off[0]) && off[1] == 0
    ensures CutAt(s.blockAddrs, s.nids, 3, t, r, Index(s.blockAddrs, s.nids, off))
  {
    assert off[1..] == [0, off[2]];
    IndexTwo(s, 0, off[2]);
    KidsFromCuts(s, 3, t, r, off[0]);
    LeafStartGap(s, t, off);
    CutOverGap(s.blockAddrs, s.nids, 3, t, r, off[0] * Size(s.blockAddrs, s.nids, 2) + 0, Index(s.blockAddrs, s.nids, off));
  }

  /** Double indirect, the kid on the path missing. */
  lemma {:induction false} DindirectNoKid(s: Shape, t: Tree, r: Tree, off: seq<nat>)
    requires s.Valid() && |off| == 3 && InRange(s.blockAddrs, s.nids, off) && Shaped(s.blockAddrs, s.nids, 3, t)
    requires KidsFrom(s, t, r, off[0]) && (t.Missing? || t.kids[off[0]].Missing?)
    ensures CutAt(s.blockAddrs, s.nids, 3, t, r, Index(s.blockAddrs, s.nids, off))
  {
    var x := Index(s.blockAddrs, s.nids, off[1..]);
    KidsFromCuts(s, 3, t, r, off[0]);
    if t.Inner? {
      IndexBound(s.blockAddrs, s.nids, off[1..]);
      KidGap(s.blockAddrs, s.nids, 3, t, off[0], 0, x);
    }
    CutOverGap(s.blockAddrs, s.nids, 3, t, r, off[0] * Size(s.blockAddrs, s.nids, 2) + 0, off[0] * Size(s.blockAddrs, s.nids, 2) + x);
  }

  /** Double indirect with a partial kid: its direct nodes from off[1] on, then the kids after it. */
  ghost predicate PartialThenRest(s: Shape, t: Tree, r: Tree, off: seq<nat>)
    requires |off| == 3
  {
    && t.Inner? && |t.kids| == s.nids && off[0] < s.nids && 0 < off[1]
    && exists kid :: KidsFrom(s, t.kids[off[0]], kid, off[1]) && KidsFrom(s, Inner(t.blk, t.kids[off[0] := kid]), r, off[0] + 1)
  }

  lemma {:induction false} PartialTruncated(s: Shape, t: Tree, r: Tree, off: seq<nat>)
    requires s.Valid() && |off| == 3 && AtLeafStart(s, t, off) && PartialThenRest(s, t, r, off)
    ensures CutAt(s.blockAddrs, s.nids, 3, t, r, Index(s.blockAddrs, s.nids, off))
  {
    var k, j := off[0], off[1];
    var kid :| KidsFrom(s, t.kids[k], kid, j) && KidsFrom(s, Inner(t.blk, t.kids[k := kid]), r, k + 1);
    var y := j * Size(s.blockAddrs, s.nids, 1) + 0;
    PartialYBound(s, off);
    PartialCut(s, t, r, kid, k, j, y);
    LeafStartGap(s, t, off);
    CutOverGap(s.blockAddrs, s.nids, 3, t, r, k * Size(s.blockAddrs, s.nids, 2) + y, Index(s.blockAddrs, s.nids, off));
  }

  lemma PartialYBound(s: Shape, off: seq<nat>)
    requires s.Valid() && |off| == 3 && InRange(s.blockAddrs, s.nids, off)
    ensures var y := off[1] * Size(s.blockAddrs, s.nids, 1) + 0;
      && y <= Size(s.blockAddrs, s.nids, 2)
      && Index(s.blockAddrs, s.nids, off) == off[0] * Size(s.blockAddrs, s.nids, 2) + y + off[2]
  {
    assert off[1..] == [off[1], off[2]];
    IndexBound(s.blockAddrs, s.nids, off[1..]);
    IndexTwo(s, off[1], off[2]);
  }

  /** A node whose kid k is cut at y, and whose later kids are gone, is cut there. */
  lemma {:induction false} PartialCut(s: Shape, t: Tree, r: Tree, kid: Tree, k: nat, j: nat, y: nat)
    requires s.Valid() && Shaped(s.blockAddrs, s.nids, 3, t) && t.Inner? && k < s.nids && 0 < j
    requires KidsFrom(s, t.kids[k], kid, j) && KidsFrom(s, Inner(t.blk, t.kids[k := kid]), r, k + 1)
    requires y == j * Size(s.blockAddrs, s.nids, 1) + 0 && y <= Size(s.blockAddrs, s.nids, 2)
    ensures CutAt(s.blockAddrs, s.nids, 3, t, r, k * Size(s.blockAddrs, s.nids, 2) + y)
  {
    KidsFromCuts(s, 2, t.kids[k], kid, j);
    InnerCut(s.blockAddrs, s.nids, 3, t, r, k, y);
  }

  /** After the main loop of truncate_inode_blocks: slot `ofs` on of root r0, and all roots after it. */
  ghost predicate RootsFreed(s: Shape, before: seq<Tree>, after: seq<Tree>, r0: nat, ofs: nat) {
    && |before| == |after| == 5 && r0 < 5
    && (forall i :: 0 <= i < r0 ==> after[i] == before[i])
    && (if r0 < 2 then after[r0].Missing? else KidsFrom(s, before[r0], after[r0], ofs))
    && (forall i :: r0 < i < 5 ==> after[i].Missing?)
  }

  /** truncate_inode_blocks leaves the roots cut at the index of the path. */
  ghost predicate InodeCut(s: Shape, before: seq<Tree>, after: seq<Tree>, off: seq<nat>)
    requires s.Valid() && 2 <= |off| && s.dir1 <= off[0]
  {
    RootsCut(s, before, after, off[0] - s.dir1, Index(s.blockAddrs, s.nids, off[1..]))
  }

  /** The end of the direct node a path reaches, as an index below its root. */
  function LeafEnd(s: Shape, off: seq<nat>): int
    requires off != []
  {
    Index(s.blockAddrs, s.nids, off) - off[|off| - 1] + s.blockAddrs
  }

  /** The entries of one direct node from the slot on are gone. */
  ghost predicate LeafCut(s: Shape, t: Tree, r: Tree, off: seq<nat>)
    requires s.Valid() && off != []
  {
    && 0 <= LeafEnd(s, off)
    && HoleIn(s.blockAddrs, s.nids, |off|, t, r, Index(s.blockAddrs, s.nids, off), LeafEnd(s, off))
  }

  lemma {:induction false} KidLeafCut(s: Shape, t: Tree, kid: Tree, off: seq<nat>)
    requires s.Valid() && |off| > 1 && InRange(s.blockAddrs, s.nids, off) && Shaped(s.blockAddrs, s.nids, |off|, t) && t.Inner?
    requires LeafCut(s, t.kids[off[0]], kid, off[1..])
    ensures LeafCut(s, t, Inner(t.blk, t.kids[off[0] := kid]), off)
  {
    IndexBound(s.blockAddrs, s.nids, off[1..]);
    KidHole(s.blockAddrs, s.nids, |off|, t, off[0], kid, Index(s.blockAddrs, s.nids, off[1..]), LeafEnd(s, off[1..]));
  }

  /** Block `from` is the first of its direct node, or that node is missing. */
  ghost predicate StartsLeaf(s: Shape, f: File, from: nat)
    requires s.Valid() && FileShaped(s, f) && s.inodeAddrs <= from
  {
    from < s.Limit() ==> GetNodePath(s, from).Path? && PathStartsLeaf(s, f.roots, GetNodePath(s, from).offset)
  }

  ghost predicate PathStartsLeaf(s: Shape, roots: seq<Tree>, off: seq<nat>)
    requires |roots| == 5
  {
    2 <= |off| && s.dir1 <= off[0] < s.dir1 + 5 && AtLeafStart(s, roots[off[0] - s.dir1], off[1..])
  }

  /** Only kid i of a double indirect node differs, cut from its direct node j on. */
  ghost predicate OneKidCut(s: Shape, t: Tree, r: Tree, i: nat, j: nat) {
    && t.Inner? && r.Inner? && r.blk == t.blk && i < |t.kids| == |r.kids| && r.kids == t.kids[i := r.kids[i]]
    && KidsFrom(s, t.kids[i], r.kids[i], j)
  }

  lemma {:induction false} DindirectCases(s: Shape, t: Tree, mid: Tree, r: Tree, off: seq<nat>, off': seq<nat>)
    requires s.Valid() && |off| == 4 && |off'| == 4 && AtLeafStart(s, t, off[1..]) && KidsFrom(s, mid, r, off'[1])
    requires off[2] == 0 || t.Missing? || t.kids[off[1]].Missing? ==> mid == t && off' == off
    requires !(off[2] == 0 || t.Missing? || t.kids[off[1]].Missing?) ==>
      off'[1] == off[1] + 1 && OneKidCut(s, t, mid, off[1], off[2])
    ensures CutAt(s.blockAddrs, s.nids, 3, t, r, Index(s.blockAddrs, s.nids, off[1..]))
  {
    var o := off[1..];
    assert o[0] == off[1] && o[1] == off[2];
    if off[2] == 0 {
      DindirectFirst(s, t, r, o);
    } else if t.Missing? || t.kids[off[1]].Missing? {
      DindirectNoKid(s, t, r, o);
    } else {
      assert mid == Inner(t.blk, t.kids[o[0] := mid.kids[o[0]]]);
      PartialTruncated(s, t, r, o);
    }
  }

  lemma {:induction false} CutPath(s: Shape, f: File, g: File, off: seq<nat>, from: nat)
    requires s.Valid() && FileShaped(s, f) && g.addrs == f.addrs && Walks(s, off, from) && InodeCut(s, f.roots, g.roots, off)
    ensures FileCut(s, f, g, from)
  {
    IndexBound(s.blockAddrs, s.nids, off[1..]);
    CutRootsCutFile(s, f, g, off[0] - s.dir1, Index(s.blockAddrs, s.nids, off[1..]));
  }

  lemma LeafKept(a: Account, t: Tree, b: Account, addrs: seq<int>)
    requires t.Leaf? && Balanced(a, OwnedAddrs(t.addrs), b, OwnedAddrs(addrs))
    ensures Balanced(a, Owned(t), b, Owned(Leaf(t.blk, addrs)))
  {
    Widen(a, OwnedAddrs(t.addrs), b, OwnedAddrs(addrs), Owned(t), Owned(Leaf(t.blk, addrs)));
  }

  // ----- truncate_blocks: the direct node holding `from`, then everything after it -----

  /** The first block lying wholly at or past a byte position. */
  function FirstBlock(fromByte: nat, blockSize: nat): nat
    requires 0 < blockSize
  {
    (fromByte + blockSize - 1) / blockSize
  }

  lemma {:induction false} FirstBlockIsFirst(fromByte: nat, blockSize: nat, b: nat)
    requires 0 < blockSize
    ensures FirstBlock(fromByte, blockSize) <= b <==> fromByte <= b * blockSize
  {
    var q, r := FirstBlock(fromByte, blockSize), (fromByte + blockSize - 1) % blockSize;
    assert fromByte + blockSize - 1 == q * blockSize + r;
    MulLe(q, b, blockSize);
    MulLe(b + 1, q, blockSize);
    assert (b + 1) * blockSize == b * blockSize + blockSize;
  }

  /** The path ends inside, not at the start of, a direct node that is there. */
  ghost predicate InsideLeaf(s: Shape, f: File, from: nat)
    requires s.Valid() && FileShaped(s, f)
  {
    s.inodeAddrs <= from < s.Limit() && GetNodePath(s, from).Path? && PathInsideLeaf(s, f.roots, GetNodePath(s, from).offset)
  }

  ghost predicate PathInsideLeaf(s: Shape, roots: seq<Tree>, off: seq<nat>)
    requires |roots| == 5
  {
    && 2 <= |off| && s.dir1 <= off[0] < s.dir1 + 5 && off[|off| - 1] != 0
    && InRange(s.blockAddrs, s.nids, off[1..]) && Shaped(s.blockAddrs, s.nids, |off| - 1, roots[off[0] - s.dir1])
    && HasLeaf(s.blockAddrs, s.nids, roots[off[0] - s.dir1], off[1..])
  }

  /** The path goes to the very last direct node a file can have. */
  predicate LastLeaf(s: Shape, p: Path) {
    p.Path? && |p.offset| == 4 && p.offset[0] == s.dir1 + 4 && p.offset[1] == s.nids - 1 && p.offset[2] == s.nids - 1
  }

  /** A block past the inode is inside a direct node that is there, or truncation starts at a direct node. */
  lemma LeafCases(s: Shape, f: File, from: nat)
    requires s.Valid() && FileShaped(s, f) && s.inodeAddrs <= from < s.Limit()
    ensures var p := GetNodePath(s, from);
      && p.Path? && Walks(s, p.offset, from)
      && (InsideLeaf(s, f, from) <==> PathInsideLeaf(s, f.roots, p.offset))
      && (!PathInsideLeaf(s, f.roots, p.offset) ==> StartsLeaf(s, f, from))
      && (Base(s, p.offset[0] - s.dir1) + LeafEnd(s, p.offset[1..]) >= s.Limit() <==> LastLeaf(s, p))
  {
    PathLeadsBack(s, from);
    PathWalks(s, from);
    var p := GetNodePath(s, from);
    OnlyLastLeafEnds(s, p.offset, p.noffset, from);
  }

  /** Where truncate_blocks goes on: past the direct node. */
  lemma {:induction false} NextLeaf(s: Shape, off: seq<nat>, from: nat) returns (m: nat)
    requires s.Valid() && Walks(s, off, from)
    ensures from == s.inodeAddrs + m * s.blockAddrs + off[|off| - 1]
    ensures from + s.blockAddrs - off[|off| - 1] == s.inodeAddrs + (m + 1) * s.blockAddrs
    ensures from + s.blockAddrs - off[|off| - 1] == Base(s, off[0] - s.dir1) + LeafEnd(s, off[1..])
  {
    var k := BaseInUnits(s, off[0] - s.dir1);
    var j := IndexInUnits(s.blockAddrs, s.nids, off[1..]);
    m := k + j;
    UnitDiff(m, k, s.blockAddrs);
    UnitDiff(m + 1, m, s.blockAddrs);
  }

  /** A block at a multiple of the direct node size starts a direct node. */
  lemma {:induction false} AlignedStartsLeaf(s: Shape, f: File, m: nat)
    requires s.Valid() && FileShaped(s, f)
    ensures StartsLeaf(s, f, s.inodeAddrs + m * s.blockAddrs)
  {
    var from := s.inodeAddrs + m * s.blockAddrs;
    if from < s.Limit() {
      PathWalks(s, from);
      var off := GetNodePath(s, from).offset;
      var q := NextLeaf(s, off, from);
      DivUnique(m * s.blockAddrs, s.blockAddrs, q, off[|off| - 1]);
      DivUnique(m * s.blockAddrs, s.blockAddrs, m, 0);
    }
  }

  lemma {:induction false} EndOfTree(s: Shape, i: nat, j: nat)
    requires s.Valid() && i < s.nids && j < s.nids
    ensures i * s.IndirectBlks() + (j * s.blockAddrs + s.blockAddrs) >= s.DindirectBlks() <==> i == s.nids - 1 && j == s.nids - 1
  {
    var sz := s.IndirectBlks();
    assert s.DindirectBlks() == s.nids * sz;
    NextKid(j, s.nids, s.blockAddrs);
    if i < s.nids - 1 {
      MulLe(i + 2, s.nids, sz);
      assert (i + 2) * sz == i * sz + 2 * sz;
    } else {
      assert (s.nids - 1) * sz == s.nids * sz - sz;
      if j < s.nids - 1 {
        MulLe(j + 2, s.nids, s.blockAddrs);
        assert (j + 2) * s.blockAddrs == j * s.blockAddrs + 2 * s.blockAddrs;
      } else {
        assert (j + 1) * s.blockAddrs == j * s.blockAddrs + s.blockAddrs;
      }
    }
  }

  lemma {:induction false} EarlierRootEnds(s: Shape, off: seq<nat>, from: nat)
    requires s.Valid() && Walks(s, off, from) && off[0] - s.dir1 < 4
    ensures Base(s, off[0] - s.dir1) + LeafEnd(s, off[1..]) < s.Limit()
  {
    Bases(s);
    BaseOrder(s, off[0] - s.dir1, 4);
    BaseOrder(s, 4, 5);
    SizePositive(s.blockAddrs, s.nids, 3);
    IndexBound(s.blockAddrs, s.nids, off[1..]);
  }

  lemma {:induction false} LastRootEnd(s: Shape, off: seq<nat>, from: nat)
    requires s.Valid() && Walks(s, off, from) && off[0] - s.dir1 == 4
    ensures LeafEnd(s, off[1..]) == off[1] * s.IndirectBlks() + (off[2] * s.blockAddrs + s.blockAddrs)
    ensures off[1] < s.nids && off[2] < s.nids
  {
    assert off[1..] == [off[1], off[2], off[3]];
    assert off[1..][0] == off[1] && off[1..][1] == off[2];
    IndexThree(s, off[1], off[2], off[3]);
  }

  lemma {:induction false} OnlyLastLeafEnds(s: Shape, off: seq<nat>, noff: seq<nat>, from: nat)
    requires s.Valid() && Walks(s, off, from)
    ensures Base(s, off[0] - s.dir1) + LeafEnd(s, off[1..]) >= s.Limit() <==> LastLeaf(s, Path(off, noff))
  {
    if off[0] - s.dir1 < 4 {
      EarlierRootEnds(s, off, from);
    } else {
      LastRootEnd(s, off, from);
      EndOfTree(s, off[1], off[2]);
      Bases(s);
    }
  }

  lemma {:induction false} LeafHole(s: Shape, f: File, t: Tree, off: seq<nat>, from: nat, m: nat)
    requires s.Valid() && FileShaped(s, f) && Walks(s, off, from) && from == s.inodeAddrs + m * s.blockAddrs + off[|off| - 1]
    requires LeafCut(s, f.roots[off[0] - s.dir1], t, off[1..])
    ensures FileHole(s, f, File(f.addrs, f.roots[off[0] - s.dir1 := t]), from, from + s.blockAddrs - off[|off| - 1])
  {
    IndexBound(s.blockAddrs, s.nids, off[1..]);
    HoleBelowRoot(s, f, off[0] - s.dir1, t, Index(s.blockAddrs, s.nids, off[1..]), LeafEnd(s, off[1..]));
  }

  lemma InodeBelowLimit(s: Shape)
    requires s.Valid()
    ensures s.inodeAddrs < s.Limit()
  {
    Bases(s);
    BaseOrder(s, 1, 5);
  }

  lemma AllRootsGone(s: Shape, f: File, g: File, from: nat)
    requires s.Valid() && FileCut(s, f, g, s.inodeAddrs)
    ensures FileTrimmed(s, g.roots, from)
  {
    forall r | 0 <= r < 5 ensures Trimmed(s.blockAddrs, s.nids, Depth(r), g.roots[r], from - Base(s, r)) {
      assert Trimmed(s.blockAddrs, s.nids, Depth(r), g.roots[r], s.inodeAddrs - Base(s, r));
    }
  }

  /** The emptied rest of the direct node, up to where the next one begins. */
  lemma {:induction false} LeafTail(s: Shape, f: File, t: Tree, off: seq<nat>, from: nat) returns (m: nat)
    requires s.Valid() && FileShaped(s, f) && Walks(s, off, from) && LeafCut(s, f.roots[off[0] - s.dir1], t, off[1..])
    ensures from == s.inodeAddrs + m * s.blockAddrs + off[|off| - 1]
    ensures from + s.blockAddrs - off[|off| - 1] == s.inodeAddrs + (m + 1) * s.blockAddrs
    ensures from + s.blockAddrs - off[|off| - 1] == Base(s, off[0] - s.dir1) + LeafEnd(s, off[1..])
    ensures FileHole(s, f, File(f.addrs, f.roots[off[0] - s.dir1 := t]), from, s.inodeAddrs + (m + 1) * s.blockAddrs)
  {
    m := NextLeaf(s, off, from);
    LeafHole(s, f, t, off, from, m);
  }

  lemma RootsBalanced(a: Account, f: File, b: Account, g: File)
    requires f.addrs == g.addrs && Balanced(a, OwnedKids(f.roots), b, OwnedKids(g.roots))
    ensures Balanced(a, OwnedFile(f), b, OwnedFile(g))
  {
    Widen(a, OwnedKids(f.roots), b, OwnedKids(g.roots), OwnedFile(f), OwnedFile(g));
  }

  lemma ThenRoots(a: Account, f: File, b: Account, mid: File, c: Account, g: File)
    requires Balanced(a, OwnedFile(f), b, OwnedFile(mid))
    requires mid.addrs == g.addrs && Balanced(b, OwnedKids(mid.roots), c, OwnedKids(g.roots))
    ensures Balanced(a, OwnedFile(f), c, OwnedFile(g))
  {
    RootsBalanced(b, mid, c, g);
  }

  lemma AddrsBalanced(a: Account, f: File, b: Account, g: File)
    requires f.roots == g.roots && Balanced(a, OwnedAddrs(f.addrs), b, OwnedAddrs(g.addrs))
    ensures Balanced(a, OwnedFile(f), b, OwnedFile(g))
  {
    Widen(a, OwnedAddrs(f.addrs), b, OwnedAddrs(g.addrs), OwnedFile(f), OwnedFile(g));
  }

  // ----- the operations -----

  class Inode {
    const s: Shape
    var iAddr: seq<int>
    var iNid: seq<Tree>
    var totalValid: int
    ghost var released: multiset<int>

    ghost predicate Valid()
      reads this
    {
      s.Valid() && FileShaped(s, Contents())
    }

    ghost function Contents(): File
      reads this`iAddr, this`iNid
    {
      File(iAddr, iNid)
    }

    ghost function Acc(): Account
      reads this`totalValid, this`released
    {
      Account(totalValid, released)
    }

    constructor (s: Shape, f: File, totalValid: int)
      requires s.Valid() && FileShaped(s, f)
      ensures Valid() && this.s == s && Contents() == f && this.totalValid == totalValid && released == multiset{}
    {
      this.s, iAddr, iNid, this.totalValid, released := s, f.addrs, f.roots, totalValid, multiset{};
    }

    /** truncate_data_blocks_range on the slots ofs .. ofs + count of one node. */
    method TruncateDataBlocksRange(addrs: seq<int>, ofs: nat, count: nat) returns (r: seq<int>)
      requires ofs + count <= |addrs|
      modifies this`totalValid, this`released
      ensures |r| == |addrs|
      ensures forall i :: 0 <= i < |addrs| ==> r[i] == if ofs <= i < ofs + count then NULL_ADDR else addrs[i]
      ensures Balanced(old(Acc()), OwnedAddrs(addrs), Acc(), OwnedAddrs(r))
    {
      r := addrs;
      var nrFree := 0;
      var i := ofs;
      while i < ofs + count
        invariant ofs <= i <= ofs + count && |r| == |addrs| && totalValid == old(totalValid)
        invariant forall k :: 0 <= k < |addrs| ==> r[k] == if ofs <= k < i then NULL_ADDR else addrs[k]
        invariant released + OwnedAddrs(r) == old(released) + OwnedAddrs(addrs)
        invariant |released| == |old(released)| + nrFree
      {
        if r[i] != NULL_ADDR {
          OwnedAddrsUpdate(r, i, NULL_ADDR);
          Swap(released, r[i], OwnedAddrs(r[i := NULL_ADDR]), OwnedAddrs(r));
          released := released + multiset{r[i]};
          r := r[i := NULL_ADDR];
          nrFree := nrFree + 1;
        }
        i := i + 1;
      }
      totalValid := totalValid - nrFree;
    }

    /** truncate_node: the node block itself goes back. */
    method TruncateNode(blk: int)
      modifies this`totalValid, this`released
      ensures released == old(released) + multiset{blk} && totalValid == old(totalValid) - 1
    {
      released := released + multiset{blk};
      totalValid := totalValid - 1;
    }

    /** truncate_dnode: a direct node with all its data, or nothing. */
    method TruncateDnode(t: Tree)
      requires Shaped(s.blockAddrs, s.nids, 1, t)
      modifies this`totalValid, this`released
      ensures Balanced(old(Acc()), Owned(t), Acc(), multiset{})
    {
      if t.Missing? { return; }
      var a := TruncateDataBlocksRange(t.addrs, 0, |t.addrs|);
      OwnedNulls(a);
      ghost var data := released;
      assert data + multiset{} == data;
      TruncateNode(t.blk);
      assert released + multiset{} == old(released) + (OwnedAddrs(t.addrs) + multiset{t.blk});
    }

    /** The loop over the direct nodes of an indirect node, shared by truncate_nodes and truncate_partial_nodes. */
    method FreeDirectNodes(kids: seq<Tree>, ofs: nat) returns (r: seq<Tree>)
      requires |kids| == s.nids && forall i :: 0 <= i < |kids| ==> Shaped(s.blockAddrs, s.nids, 1, kids[i])
      modifies this`totalValid, this`released
      ensures DroppedFrom(s, kids, r, ofs)
      ensures Balanced(old(Acc()), OwnedKids(kids), Acc(), OwnedKids(r))
    {
      r := kids;
      var i := ofs;
      while i < s.nids
        invariant |r| == |kids| && ofs <= i && (ofs <= s.nids ==> i <= s.nids)
        invariant forall k :: 0 <= k < |kids| ==> r[k] == if ofs <= k < i then Missing else kids[k]
        invariant Balanced(old(Acc()), OwnedKids(kids), Acc(), OwnedKids(r))
      {
        if !r[i].Missing? {
          ghost var a := Acc();
          TruncateDnode(r[i]);
          KidGone(old(Acc()), OwnedKids(kids), a, r, i, Acc());
          r := r[i := Missing];
        }
        i := i + 1;
      }
    }

    /**
     * truncate_nodes: from slot `ofs` of an indirect (depth 2) or double indirect (depth 3) node on.
     * Its caller one level up recognises a completely freed indirect node by the return value.
     */
    method TruncateNodes(t: Tree, ofs: nat, depth: nat) returns (r: Tree, freed: int)
      requires s.Valid() && 2 <= depth <= 3 && ofs <= s.nids && Shaped(s.blockAddrs, s.nids, depth, t)
      modifies this`totalValid, this`released
      ensures KidsFrom(s, t, r, ofs)
      ensures Balanced(old(Acc()), Owned(t), Acc(), Owned(r))
      ensures depth == 2 && (ofs == 0 || t.Missing?) ==> freed == s.nids + 1
      decreases depth, 1
    {
      r := t;
      freed := s.nids + 1;
      if t.Missing? { return; }
      var kids;
      if depth < 3 {
        kids := FreeDirectNodes(t.kids, ofs);
        freed := s.nids - ofs;
      } else {
        kids := FreeIndirectNodes(t.kids, ofs);
        freed := s.nids;
      }
      ghost var a := Acc();
      if ofs == 0 {
        OwnedMissing(kids);
        TruncateNode(t.blk);
        r := Missing;
        freed := freed + 1;
        NodeGone(old(Acc()), t, a, Acc());
      } else {
        r := Inner(t.blk, kids);
        NodeKept(old(Acc()), t, a, kids);
      }
    }

    /** The depth 3 loop: whole indirect nodes, whose return value must say that nothing is left. */
    method FreeIndirectNodes(kids: seq<Tree>, ofs: nat) returns (r: seq<Tree>)
      requires s.Valid() && |kids| == s.nids && forall i :: 0 <= i < |kids| ==> Shaped(s.blockAddrs, s.nids, 2, kids[i])
      modifies this`totalValid, this`released
      ensures DroppedFrom(s, kids, r, ofs)
      ensures Balanced(old(Acc()), OwnedKids(kids), Acc(), OwnedKids(r))
      decreases 3, 0
    {
      r := kids;
      var i := ofs;
      while i < s.nids
        invariant |r| == |kids| && ofs <= i && (ofs <= s.nids ==> i <= s.nids)
        invariant forall k :: 0 <= k < |kids| ==> r[k] == if ofs <= k < i then Missing else kids[k]
        invariant Balanced(old(Acc()), OwnedKids(kids), Acc(), OwnedKids(r))
      {
        if !r[i].Missing? {
          ghost var a := Acc();
          var left, ret := TruncateNodes(r[i], 0, 2);
          KidGone(old(Acc()), OwnedKids(kids), a, r, i, Acc());
          if ret == s.nids + 1 {
            r := r[i := Missing];
          }
        }
        i := i + 1;
      }
    }

    /**
     * truncate_partial_nodes for an indirect root: its direct nodes from off[1] on; then the walk goes
     * on at the next root.  The caller's guard excludes off[1] == 0.
     */
    method TruncatePartialIndirect(off: seq<nat>) returns (off': seq<nat>)
      requires Valid() && |off| == 3 && s.dir1 + 2 <= off[0] < s.dir1 + 4 && 0 < off[1] < s.nids
      modifies this`totalValid, this`released, this`iNid
      ensures Valid() && Balanced(old(Acc()), OwnedKids(old(iNid)), Acc(), OwnedKids(iNid))
      ensures iNid == old(iNid)[off[0] - s.dir1 := iNid[off[0] - s.dir1]]
      ensures KidsFrom(s, old(iNid)[off[0] - s.dir1], iNid[off[0] - s.dir1], off[1])
      ensures off' == if iNid[off[0] - s.dir1].Missing? then off else [off[0] + 1, 0, off[2]]
    {
      off' := off;
      var r := off[0] - s.dir1;
      var t := iNid[r];
      if t.Missing? { return; }
      ghost var a := Acc();
      var kids := FreeDirectNodes(t.kids, off[1]);
      var t' := Inner(t.blk, kids);
      NodeKept(a, t, Acc(), kids);
      KidsFromCuts(s, 2, t, t', off[1]);
      SlotChanged(a, iNid, r, t', Acc());
      iNid := iNid[r := t'];
      off' := [off[0] + 1, 0, off[2]];
    }

    /** truncate_partial_nodes below the double indirect root: direct nodes of one indirect node. */
    method TruncatePartialDindirect(off: seq<nat>) returns (off': seq<nat>)
      requires Valid() && |off| == 4 && off[0] == s.dir1 + 4 && off[1] < s.nids && 0 < off[2] < s.nids
      modifies this`totalValid, this`released, this`iNid
      ensures Valid() && Balanced(old(Acc()), OwnedKids(old(iNid)), Acc(), OwnedKids(iNid))
      ensures iNid == old(iNid)[4 := iNid[4]]
      ensures old(iNid)[4].Missing? || old(iNid)[4].kids[off[1]].Missing? ==> iNid == old(iNid) && off' == off
      ensures !old(iNid)[4].Missing? && !old(iNid)[4].kids[off[1]].Missing? ==>
        off' == [off[0], off[1] + 1, 0, off[3]] && OneKidCut(s, old(iNid)[4], iNid[4], off[1], off[2])
    {
      off' := off;
      var t := iNid[4];
      assert Shaped(s.blockAddrs, s.nids, 3, t);
      if t.Missing? { return; }
      var kid := t.kids[off[1]];
      if kid.Missing? { return; }
      ghost var a := Acc();
      assert Shaped(s.blockAddrs, s.nids, 2, kid);
      var kids := FreeDirectNodes(kid.kids, off[2]);
      var kid' := Inner(kid.blk, kids);
      NodeKept(a, kid, Acc(), kids);
      KidsFromCuts(s, 2, kid, kid', off[2]);
      SlotChanged(a, t.kids, off[1], kid', Acc());
      NodeKept(a, t, Acc(), t.kids[off[1] := kid']);
      var t' := Inner(t.blk, t.kids[off[1] := kid']);
      SlotChanged(a, iNid, 4, t', Acc());
      iNid := iNid[4 := t'];
      off' := [off[0], off[1] + 1, 0, off[3]];
    }

    /** The body of the main loop of truncate_inode_blocks for one of the five root slots. */
    method FreeRoot(r: nat, ofs: nat)
      requires Valid() && r < 5 && (r >= 2 ==> ofs <= s.nids) && (r < 2 && ofs != 0 ==> iNid[r].Missing?)
      modifies this`totalValid, this`released, this`iNid
      ensures Valid() && Balanced(old(Acc()), OwnedKids(old(iNid)), Acc(), OwnedKids(iNid))
      ensures iNid == old(iNid)[r := iNid[r]]
      ensures if r < 2 then iNid[r].Missing? else KidsFrom(s, old(iNid)[r], iNid[r], ofs)
    {
      ghost var a := Acc();
      var t := iNid[r];
      var t' := Missing;
      if r < 2 {
        TruncateDnode(t);
      } else {
        var freed;
        t', freed := TruncateNodes(t, ofs, if r < 4 then 2 else 3);
        KidsFromCuts(s, Depth(r), t, t', ofs);
      }
      SlotChanged(a, iNid, r, t', Acc());
      iNid := iNid[r := t'];
    }

    /** The loop itself: the first slot from `ofs` on, all later ones entirely. */
    method FreeRoots(r0: nat, ofs: nat)
      requires Valid() && r0 < 5 && (r0 >= 2 ==> ofs <= s.nids) && (r0 < 2 && ofs != 0 ==> iNid[r0].Missing?)
      modifies this`totalValid, this`released, this`iNid
      ensures Valid() && Balanced(old(Acc()), OwnedKids(old(iNid)), Acc(), OwnedKids(iNid))
      ensures RootsFreed(s, old(iNid), iNid, r0, ofs)
    {
      FreeRoot(r0, ofs);
      ghost var first := iNid[r0];
      var r := r0 + 1;
      while r < 5
        invariant r0 < r <= 5 && Valid() && iNid[r0] == first
        invariant Balanced(old(Acc()), OwnedKids(old(iNid)), Acc(), OwnedKids(iNid))
        invariant forall i :: 0 <= i < 5 && i < r0 ==> iNid[i] == old(iNid)[i]
        invariant forall i :: r0 < i < r ==> iNid[i].Missing?
      {
        FreeRoot(r, 0);
        r := r + 1;
      }
    }

    /** truncate_inode_blocks at level 2: the partial indirect node if there is one, then everything after it. */
    method TruncateFromIndirect(off: seq<nat>)
      requires Valid() && |off| == 3 && s.dir1 + 2 <= off[0] < s.dir1 + 4
      requires AtLeafStart(s, iNid[off[0] - s.dir1], off[1..])
      modifies this`totalValid, this`released, this`iNid
      ensures Valid() && Balanced(old(Acc()), OwnedKids(old(iNid)), Acc(), OwnedKids(iNid))
      ensures InodeCut(s, old(iNid), iNid, off)
    {
      var r := off[0] - s.dir1;
      var off' := off;
      if off[1] != 0 {
        off' := TruncatePartialIndirect(off);
      }
      ghost var mid, a := iNid, Acc();
      FreeRoots(off'[0] - s.dir1, off'[1]);
      Chain(old(Acc()), OwnedKids(old(iNid)), a, OwnedKids(mid), Acc(), OwnedKids(iNid));
      IndirectTruncated(s, old(iNid)[r], iNid[r], off[1..]);
    }

    /** truncate_inode_blocks at level 3. */
    method TruncateFromDindirect(off: seq<nat>)
      requires Valid() && |off| == 4 && off[0] == s.dir1 + 4 && AtLeafStart(s, iNid[4], off[1..])
      modifies this`totalValid, this`released, this`iNid
      ensures Valid() && Balanced(old(Acc()), OwnedKids(old(iNid)), Acc(), OwnedKids(iNid))
      ensures InodeCut(s, old(iNid), iNid, off)
    {
      ghost var t := iNid[4];
      assert Shaped(s.blockAddrs, s.nids, 3, t) && off[1..][0] == off[1] < s.nids && off[1..][1] == off[2] < s.nids;
      var off' := off;
      if off[2] != 0 {
        off' := TruncatePartialDindirect(off);
      }
      ghost var mid, a := iNid, Acc();
      FreeRoots(4, off'[1]);
      Chain(old(Acc()), OwnedKids(old(iNid)), a, OwnedKids(mid), Acc(), OwnedKids(iNid));
      DindirectCases(s, t, mid[4], iNid[4], off, off');
    }

    /** truncate_inode_blocks: everything from block `from` on; get_node_path has no path past the limit. */
    method TruncateInodeBlocks(from: nat) returns (bug: bool)
      requires Valid() && s.inodeAddrs <= from && StartsLeaf(s, Contents(), from)
      modifies this`totalValid, this`released, this`iNid
      ensures Valid() && Balanced(old(Acc()), OwnedKids(old(iNid)), Acc(), OwnedKids(iNid))
      ensures bug == (from >= s.Limit())
      ensures bug ==> iNid == old(iNid) && Acc() == old(Acc())
      ensures !bug ==> FileCut(s, old(Contents()), Contents(), from)
    {
      PathLeadsBack(s, from);
      var p := GetNodePath(s, from);
      bug := p.Bug?;
      if bug { return; }
      PathWalks(s, from);
      var off := p.offset;
      if |off| == 2 {
        FreeRoots(off[0] - s.dir1, off[1]);
        CutAll(s.blockAddrs, s.nids, 1, old(iNid)[off[0] - s.dir1]);
      } else if |off| == 3 {
        TruncateFromIndirect(off);
      } else {
        TruncateFromDindirect(off);
      }
      CutPath(s, old(Contents()), Contents(), off, from);
    }

    /** The rest of one direct node from a slot on, found by walking down (get_dnode_of_data, then truncate_data_blocks_range). */
    method CutLeaf(t: Tree, off: seq<nat>) returns (r: Tree)
      requires s.Valid() && InRange(s.blockAddrs, s.nids, off) && Shaped(s.blockAddrs, s.nids, |off|, t)
      requires HasLeaf(s.blockAddrs, s.nids, t, off)
      modifies this`totalValid, this`released
      ensures LeafCut(s, t, r, off)
      ensures Balanced(old(Acc()), Owned(t), Acc(), Owned(r))
      decreases |off|
    {
      ghost var a := Acc();
      if |off| == 1 {
        var addrs := TruncateDataBlocksRange(t.addrs, off[0], s.blockAddrs - off[0]);
        r := Leaf(t.blk, addrs);
        LeafKept(a, t, Acc(), addrs);
      } else {
        var kid := CutLeaf(t.kids[off[0]], off[1..]);
        r := Inner(t.blk, t.kids[off[0] := kid]);
        SlotChanged(a, t.kids, off[0], kid, Acc());
        NodeKept(a, t, Acc(), t.kids[off[0] := kid]);
        KidLeafCut(s, t, kid, off);
      }
    }

    /** truncate_blocks for a block inside the inode: its own addresses, then every tree. */
    method TruncateFromInode(from: nat)
      requires Valid() && from < s.inodeAddrs
      modifies this`totalValid, this`released, this`iAddr, this`iNid
      ensures Valid() && Balanced(old(Acc()), OwnedFile(old(Contents())), Acc(), OwnedFile(Contents()))
      ensures FileCut(s, old(Contents()), Contents(), from)
    {
      iAddr := TruncateDataBlocksRange(iAddr, from, s.inodeAddrs - from);
      ghost var mid, a := Contents(), Acc();
      AddrsBalanced(old(Acc()), old(Contents()), a, mid);
      InodeBelowLimit(s);
      var bug := TruncateFromNode(s.inodeAddrs, 0);
      ThenRoots(old(Acc()), old(Contents()), a, mid, Acc(), Contents());
      AllRootsGone(s, mid, Contents(), from);
      InodeThenCut(s, old(Contents()), mid, Contents(), from);
    }

    /** The direct node that holds `from`, from there to its end; the walk goes on at the node after it. */
    method TruncateLeafTail(from: nat, off: seq<nat>) returns (ghost m: nat)
      requires Valid() && Walks(s, off, from) && PathInsideLeaf(s, iNid, off)
      modifies this`totalValid, this`released, this`iNid
      ensures Valid() && Balanced(old(Acc()), OwnedFile(old(Contents())), Acc(), OwnedFile(Contents()))
      ensures from == s.inodeAddrs + m * s.blockAddrs + off[|off| - 1]
      ensures from + s.blockAddrs - off[|off| - 1] == s.inodeAddrs + (m + 1) * s.blockAddrs
      ensures from + s.blockAddrs - off[|off| - 1] == Base(s, off[0] - s.dir1) + LeafEnd(s, off[1..])
      ensures FileHole(s, old(Contents()), Contents(), from, s.inodeAddrs + (m + 1) * s.blockAddrs)
    {
      var t := ReplaceLeaf(off[0] - s.dir1, off[1..]);
      m := LeafTail(s, old(Contents()), t, off, from);
    }

    /** The tree below one root, with the rest of one direct node emptied. */
    method ReplaceLeaf(r: nat, off: seq<nat>) returns (t: Tree)
      requires Valid() && r < 5 && InRange(s.blockAddrs, s.nids, off) && |off| == Depth(r)
      requires HasLeaf(s.blockAddrs, s.nids, iNid[r], off)
      modifies this`totalValid, this`released, this`iNid
      ensures Valid() && LeafCut(s, old(iNid)[r], t, off) && iNid == old(iNid)[r := t]
      ensures Balanced(old(Acc()), OwnedFile(old(Contents())), Acc(), OwnedFile(Contents()))
    {
      t := CutLeaf(iNid[r], off);
      SlotChanged(old(Acc()), iNid, r, t, Acc());
      iNid := iNid[r := t];
      RootsBalanced(old(Acc()), old(Contents()), Acc(), Contents());
    }

    /** truncate_inode_blocks from the start of a direct node. */
    method TruncateFromNode(from: nat, ghost m: nat) returns (bug: bool)
      requires Valid() && from == s.inodeAddrs + m * s.blockAddrs
      modifies this`totalValid, this`released, this`iNid
      ensures Valid() && iAddr == old(iAddr) && Balanced(old(Acc()), OwnedKids(old(iNid)), Acc(), OwnedKids(iNid))
      ensures bug == (from >= s.Limit())
      ensures !bug ==> FileCut(s, old(Contents()), Contents(), from)
    {
      AlignedStartsLeaf(s, Contents(), m);
      bug := TruncateInodeBlocks(from);
    }

    /** truncate_blocks for a block inside a direct node that is there. */
    method TruncateFromLeaf(from: nat, off: seq<nat>) returns (bug: bool)
      requires Valid() && Walks(s, off, from) && PathInsideLeaf(s, iNid, off)
      modifies this`totalValid, this`released, this`iNid
      ensures Valid() && Balanced(old(Acc()), OwnedFile(old(Contents())), Acc(), OwnedFile(Contents()))
      ensures bug == (Base(s, off[0] - s.dir1) + LeafEnd(s, off[1..]) >= s.Limit())
      ensures !bug ==> FileCut(s, old(Contents()), Contents(), from)
    {
      ghost var m := TruncateLeafTail(from, off);
      ghost var mid, a := Contents(), Acc();
      bug := TruncateFromNode(from + (s.blockAddrs - off[|off| - 1]), m + 1);
      ThenRoots(old(Acc()), old(Contents()), a, mid, Acc(), Contents());
      if !bug { HoleThenCut(s, old(Contents()), mid, Contents(), m, off[|off| - 1]); }
    }

    /**
     * truncate_blocks.  It reaches a BUG exactly when there is no path to the first block to free, or
     * when that block lies inside the last direct node of the tree, past its first slot; otherwise
     * every block at or past `fromByte` is unmapped, every earlier one unchanged, and the counter has
     * dropped by exactly the blocks given back.
     */
    method TruncateBlocks(fromByte: nat, blockSize: nat) returns (bug: bool)
      requires Valid() && 0 < blockSize
      modifies this`totalValid, this`released, this`iAddr, this`iNid
      ensures Valid() && Balanced(old(Acc()), OwnedFile(old(Contents())), Acc(), OwnedFile(Contents()))
      ensures bug == (FirstBlock(fromByte, blockSize) >= s.Limit()
        || (InsideLeaf(s, old(Contents()), FirstBlock(fromByte, blockSize))
            && LastLeaf(s, GetNodePath(s, FirstBlock(fromByte, blockSize)))))
      ensures !bug ==> FileCut(s, old(Contents()), Contents(), FirstBlock(fromByte, blockSize))
    {
      var from := FirstBlock(fromByte, blockSize);
      bug := false;
      PathLeadsBack(s, from);
      if from >= s.Limit() { return true; }
      if from < s.inodeAddrs {
        TruncateFromInode(from);
      } else {
        bug := TruncatePastInode(from);
      }
    }

    /** truncate_blocks for a block that some direct node is for. */
    method TruncatePastInode(from: nat) returns (bug: bool)
      requires Valid() && s.inodeAddrs <= from < s.Limit()
      modifies this`totalValid, this`released, this`iNid
      ensures Valid() && Balanced(old(Acc()), OwnedFile(old(Contents())), Acc(), OwnedFile(Contents()))
      ensures bug == (InsideLeaf(s, old(Contents()), from) && LastLeaf(s, GetNodePath(s, from)))
      ensures !bug ==> FileCut(s, old(Contents()), Contents(), from)
    {
      LeafCases(s, Contents(), from);
      var off := GetNodePath(s, from).offset;
      if off[|off| - 1] != 0 && HasLeaf(s.blockAddrs, s.nids, iNid[off[0] - s.dir1], off[1..]) {
        bug := TruncateFromLeaf(from, off);
      } else {
        bug := TruncateWholeLeaves(from);
      }
    }

    /** truncate_blocks for the first block of a direct node, or for one without a direct node. */
    method TruncateWholeLeaves(from: nat) returns (bug: bool)
      requires Valid() && s.inodeAddrs <= from < s.Limit() && StartsLeaf(s, Contents(), from)
      modifies this`totalValid, this`released, this`iNid
      ensures Valid() && Balanced(old(Acc()), OwnedFile(old(Contents())), Acc(), OwnedFile(Contents()))
      ensures !bug && FileCut(s, old(Contents()), Contents(), from)
    {
      bug := TruncateInodeBlocks(from);
      RootsBalanced(old(Acc()), old(Contents()), Acc(), Contents());
    }
  }

  /** One address in the inode, two in a direct node, one pointer in an indirect one: block 10 is the last. */
  function SmallShape(): Shape { Shape(1, 2, 1, 1) }

  /** A file that has only its very last direct node. */
  function LastNodeOnly(): File {
    File([NULL_ADDR], [Missing, Missing, Missing, Missing, Inner(2, [Inner(3, [Leaf(4, [5, 6])])])])
  }

  lemma LastNodeShaped()
    ensures SmallShape().Valid() && SmallShape().Limit() == 11 && FileShaped(SmallShape(), LastNodeOnly())
    ensures GetNodePath(SmallShape(), 10).Path? && GetNodePath(SmallShape(), 10).offset == [5, 0, 0, 1]
  {
    assert Shaped(2, 1, 1, Leaf(4, [5, 6]));
    assert Shaped(2, 1, 2, Inner(3, [Leaf(4, [5, 6])]));
  }

  /** Truncating that file to its last block but keeping the one before reaches the BUG. */
  lemma {:induction false} LastNodeIsInside()
    ensures SmallShape().Valid() && FileShaped(SmallShape(), LastNodeOnly())
    ensures InsideLeaf(SmallShape(), LastNodeOnly(), 10) && LastLeaf(SmallShape(), GetNodePath(SmallShape(), 10))
  {
    LastNodeShaped();
    var off: seq<nat> := [0, 0, 1];
    assert [5, 0, 0, 1][1..] == off && off[1..] == [0, 1] && off[1..][1..] == [1];
    assert InRange(2, 1, off);
    assert HasLeaf(2, 1, Leaf(4, [5, 6]), [1]);
    assert HasLeaf(2, 1, Inner(3, [Leaf(4, [5, 6])]), [0, 1]);
  }

  method TruncatingTheLastNodeFails() returns (inode: Inode, bug: bool)
    ensures fresh(inode) && bug
  {
    LastNodeIsInside();
    inode := new Inode(SmallShape(), LastNodeOnly(), 5);
    bug := inode.TruncateBlocks(10, 1);
  }
}
