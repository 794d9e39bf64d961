/**
 * The block index of a file (node.c, node.h, gc.c): which path of node blocks leads to a file block,
 * how node blocks are numbered, and how a numbered node finds its first file block again.
 */
module NodePath {
  import opened Geometry

  /** inodeAddrs, blockAddrs and nids are ADDRS_PER_INODE, ADDRS_PER_BLOCK and NIDS_PER_BLOCK; dir1 is NODE_DIR1_BLOCK. */
  datatype Shape = Shape(inodeAddrs: nat, blockAddrs: nat, nids: nat, dir1: nat)
  {
    predicate Valid() { 0 < inodeAddrs && 0 < blockAddrs && 0 < nids && 0 < IndirectBlks() }
    function IndirectBlks(): nat { blockAddrs * nids }
    function DindirectBlks(): nat { blockAddrs * nids * nids }

    /** One past the last block that get_node_path can reach. */
    function Limit(): nat { inodeAddrs + 2 * blockAddrs + 2 * IndirectBlks() + DindirectBlks() }
  }

  /** get_node_path: the offsets and node numbers from the inode down, or BUG past the limit. */
  datatype Path = Path(offset: seq<nat>, noffset: seq<nat>) | Bug

  function GetNodePath(s: Shape, block: nat): (p: Path)
    requires s.Valid()
  {
    var d := s.blockAddrs;
    if block < s.inodeAddrs then Path([block], [0]) else
    var b1 := block - s.inodeAddrs;
    if b1 < d then Path([s.dir1, b1], [0, 1]) else
    var b2 := b1 - d;
    if b2 < d then Path([s.dir1 + 1, b2], [0, 2]) else
    var b3 := b2 - d;
    if b3 < s.IndirectBlks() then IndirectPath(s, s.dir1 + 2, 3, b3) else
    var b4 := b3 - s.IndirectBlks();
    if b4 < s.IndirectBlks() then IndirectPath(s, s.dir1 + 3, 4 + s.nids, b4) else
    var b5 := b4 - s.IndirectBlks();
    if b5 < s.DindirectBlks() then DindirectPath(s, b5) else Bug
  }

  /** Through an indirect node numbered `top`: the direct nodes follow it in number. */
  function IndirectPath(s: Shape, slot: nat, top: nat, b: nat): (p: Path)
    requires 0 < s.blockAddrs
  {
    Path([slot, b / s.blockAddrs, b % s.blockAddrs], [0, top, top + 1 + b / s.blockAddrs])
  }

  function DindirectPath(s: Shape, b: nat): (p: Path)
    requires 0 < s.blockAddrs && 0 < s.nids && 0 < s.IndirectBlks()
  {
    var i, j := b / s.IndirectBlks(), (b / s.blockAddrs) % s.nids;
    var top := 5 + s.nids * 2;
    Path([s.dir1 + 4, i, j, b % s.blockAddrs],
         [0, top, top + 1 + i * (s.nids + 1), top + 2 + i * (s.nids + 1) + j])
  }

  /** get_node_path as it fills its two arrays; -1 stands for the BUG. */
  method FillNodePath(s: Shape, block: nat, offset: array<nat>, noffset: array<nat>) returns (level: int)
    requires s.Valid() && offset != noffset && offset.Length == noffset.Length == 4
    modifies offset, noffset
    ensures -1 <= level < 4 && (level < 0 <==> GetNodePath(s, block).Bug?)
    ensures level >= 0 ==> GetNodePath(s, block) == Path(offset[..level + 1], noffset[..level + 1])
  {
    var b := block;
    noffset[0] := 0;
    if b < s.inodeAddrs {
      offset[0] := b;
      return 0;
    }
    b := b - s.inodeAddrs;
    if b < s.blockAddrs {
      offset[0], noffset[1], offset[1] := s.dir1, 1, b;
      return 1;
    }
    b := b - s.blockAddrs;
    if b < s.blockAddrs {
      offset[0], noffset[1], offset[1] := s.dir1 + 1, 2, b;
      return 1;
    }
    b := b - s.blockAddrs;
    if b < s.IndirectBlks() {
      FillIndirect(s, s.dir1 + 2, 3, b, offset, noffset);
      return 2;
    }
    b := b - s.IndirectBlks();
    if b < s.IndirectBlks() {
      FillIndirect(s, s.dir1 + 3, 4 + s.nids, b, offset, noffset);
      return 2;
    }
    b := b - s.IndirectBlks();
    if b < s.DindirectBlks() {
      FillDindirect(s, b, offset, noffset);
      return 3;
    }
    level := -1;
  }

  method FillIndirect(s: Shape, slot: nat, top: nat, b: nat, offset: array<nat>, noffset: array<nat>)
    requires 0 < s.blockAddrs && offset != noffset && offset.Length == noffset.Length == 4
    modifies offset, noffset
    ensures old(noffset[0]) == 0 ==> IndirectPath(s, slot, top, b) == Path(offset[..3], noffset[..3])
  {
    offset[0], noffset[1] := slot, top;
    offset[1] := b / s.blockAddrs;
    noffset[2] := top + 1 + offset[1];
    offset[2] := b % s.blockAddrs;
  }

  method FillDindirect(s: Shape, b: nat, offset: array<nat>, noffset: array<nat>)
    requires s.Valid() && offset != noffset && offset.Length == noffset.Length == 4
    modifies offset, noffset
    ensures old(noffset[0]) == 0 ==> DindirectPath(s, b) == Path(offset[..4], noffset[..4])
  {
    offset[0], noffset[1] := s.dir1 + 4, 5 + s.nids * 2;
    offset[1] := b / s.IndirectBlks();
    noffset[2] := 6 + s.nids * 2 + offset[1] * (s.nids + 1);
    offset[2] := (b / s.blockAddrs) % s.nids;
    noffset[3] := 7 + s.nids * 2 + offset[1] * (s.nids + 1) + offset[2];
    offset[3] := b % s.blockAddrs;
  }

  function Last(s: seq<nat>): nat
    requires s != []
  {
    s[|s| - 1]
  }

  /** start_bidx_of_node. */
  function StartBidx(s: Shape, ofs: nat): int
    requires 0 < s.nids
  {
    var indirect := 2 * s.nids + 4;
    if ofs == 0 then 0
    else if ofs <= 2 then (ofs - 1) * s.blockAddrs + s.inodeAddrs
    else if ofs <= indirect then (ofs - 2 - (ofs - 4) / (s.nids + 1)) * s.blockAddrs + s.inodeAddrs
    else (ofs - 5 - (ofs - indirect - 3) / (s.nids + 1)) * s.blockAddrs + s.inodeAddrs
  }

  /** IS_DNODE on a node number other than the xattr node's. */
  predicate IsDnode(s: Shape, ofs: nat) {
    && ofs != 3 && ofs != 4 + s.nids && ofs != 5 + 2 * s.nids
    && (ofs >= 6 + 2 * s.nids ==> (ofs - (6 + 2 * s.nids)) % (s.nids + 1) != 0)
  }

  /** max_file_size in pages; it always assumes the smaller inode of inline xattrs. */
  function MaxPages(s: Shape, inlineXattrAddrs: nat, defAddrs: nat): int {
    defAddrs - inlineXattrAddrs + 2 * s.blockAddrs + 2 * s.IndirectBlks() + s.DindirectBlks()
  }

  lemma {:induction false} DivBound(x: nat, d: nat, n: nat)
    requires 0 < d && x < d * n
    ensures x / d < n && x == (x / d) * d + x % d
  {
    assert x == (x / d) * d + x % d;
    MulLe(n, x / d, d);
  }

  lemma {:induction false} SplitThree(b: nat, d: nat, n: nat, q: nat, r: nat, i: nat, j: nat)
    requires 0 < d && 0 < n && 0 < d * n && b == q * d + r && r < d && q == i * n + j && j < n
    ensures b / (d * n) == i
  {
    Regroup(i, n, j, d, r);
    DivUnique(b, d * n, i, j * d + r);
  }

  /** The leaf of the double indirect tree: which indirect node, which direct node, which slot. */
  lemma {:induction false} DindSplit(s: Shape, b: nat)
    requires s.Valid() && b < s.DindirectBlks()
    ensures b / s.IndirectBlks() < s.nids
    ensures b / s.blockAddrs == (b / s.IndirectBlks()) * s.nids + (b / s.blockAddrs) % s.nids
  {
    var d, n := s.blockAddrs, s.nids;
    var q := b / d;
    DivBound(b, d * n, n);
    SplitThree(b, d, n, q, b % d, q / n, q % n);
  }

  lemma Regroup(i: nat, n: nat, j: nat, d: nat, r: nat)
    requires j < n && r < d
    ensures (i * n + j) * d + r == i * (d * n) + (j * d + r)
    ensures j * d + r < d * n
  {
    MulLe(j + 1, n, d);
    assert (j + 1) * d == j * d + d && n * d == d * n;
    Associate(i, n, d);
    assert (i * n + j) * d == (i * n) * d + j * d;
  }

  lemma Associate(a: nat, b: nat, c: nat)
    ensures (a * b) * c == a * (c * b)
  {
  }

  // ----- the number of the leaf leads back to the block -----

  lemma {:induction false} IndirectBack(s: Shape, top: nat, b: nat, first: nat)
    requires s.Valid() && b < s.IndirectBlks()
    requires (top == 3 && first == 2) || (top == 4 + s.nids && first == 2 + s.nids)
    ensures b / s.blockAddrs < s.nids
    ensures StartBidx(s, top + 1 + b / s.blockAddrs) == (first + b / s.blockAddrs) * s.blockAddrs + s.inodeAddrs
    ensures IsDnode(s, top + 1 + b / s.blockAddrs) && !IsDnode(s, top)
  {
    DivBound(b, s.blockAddrs, s.nids);
    var k := b / s.blockAddrs;
    var ofs := top + 1 + k;
    if top == 3 {
      DivUnique(ofs - 4, s.nids + 1, 0, k);
    } else {
      DivUnique(ofs - 4, s.nids + 1, 1, k);
    }
  }

  lemma {:induction false} DindirectBack(s: Shape, i: nat, j: nat)
    requires s.Valid() && i < s.nids && j < s.nids
    ensures var ofs := 7 + 2 * s.nids + i * (s.nids + 1) + j;
      StartBidx(s, ofs) == (2 + 2 * s.nids + i * s.nids + j) * s.blockAddrs + s.inodeAddrs && IsDnode(s, ofs)
    ensures !IsDnode(s, 5 + 2 * s.nids) && !IsDnode(s, 6 + 2 * s.nids + i * (s.nids + 1))
  {
    var n := s.nids;
    var ofs := 7 + 2 * n + i * (n + 1) + j;
    DivUnique(i * (n + 1) + j, n + 1, i, j);
    DivUnique(i * (n + 1) + j + 1, n + 1, i, j + 1);
    DivUnique(i * (n + 1), n + 1, i, 0);
    assert i * (n + 1) == i * n + i;
  }

  /** The path exists exactly below the limit, and its leaf and slot give the block back. */
  lemma {:induction false} PathLeadsBack(s: Shape, block: nat)
    requires s.Valid()
    ensures GetNodePath(s, block).Path? <==> block < s.Limit()
    ensures block < s.Limit() ==> Leads(s, GetNodePath(s, block), block)
  {
    var b3 := block - s.inodeAddrs - 2 * s.blockAddrs;
    if b3 < 0 {
      DirectLeads(s, block);
    } else if b3 < s.IndirectBlks() {
      FirstIndirectLeads(s, b3);
    } else if b3 - s.IndirectBlks() < s.IndirectBlks() {
      SecondIndirectLeads(s, b3 - s.IndirectBlks());
    } else if b3 - 2 * s.IndirectBlks() < s.DindirectBlks() {
      DindirectLeads(s, b3 - 2 * s.IndirectBlks());
    }
  }

  lemma DirectLeads(s: Shape, block: nat)
    requires s.Valid() && block < s.inodeAddrs + 2 * s.blockAddrs
    ensures Leads(s, GetNodePath(s, block), block)
  {
  }

  lemma FirstIndirectLeads(s: Shape, b: nat)
    requires s.Valid() && b < s.IndirectBlks()
    ensures Leads(s, IndirectPath(s, s.dir1 + 2, 3, b), s.inodeAddrs + 2 * s.blockAddrs + b)
  {
    IndirectBack(s, 3, b, 2);
    Rejoin(s, 2, b);
  }

  lemma SecondIndirectLeads(s: Shape, b: nat)
    requires s.Valid() && b < s.IndirectBlks()
    ensures Leads(s, IndirectPath(s, s.dir1 + 3, 4 + s.nids, b), s.inodeAddrs + 2 * s.blockAddrs + s.IndirectBlks() + b)
  {
    IndirectBack(s, 4 + s.nids, b, 2 + s.nids);
    RejoinSecond(s, b);
  }

  ghost predicate Leads(s: Shape, p: Path, block: nat)
    requires s.Valid()
  {
    && p.Path? && 1 <= |p.offset| == |p.noffset| <= 4 && p.noffset[0] == 0
    && StartBidx(s, Last(p.noffset)) + Last(p.offset) == block
    && IsDnode(s, Last(p.noffset))
    && (forall k :: 0 < k < |p.noffset| - 1 ==> !IsDnode(s, p.noffset[k]))
    && Last(p.offset) < (if |p.offset| == 1 then s.inodeAddrs else s.blockAddrs)
    && (forall k :: 0 < k < |p.offset| - 1 ==> p.offset[k] < s.nids)
  }

  lemma Rejoin(s: Shape, first: nat, b: nat)
    requires s.Valid()
    ensures (first + b / s.blockAddrs) * s.blockAddrs + b % s.blockAddrs == first * s.blockAddrs + b
  {
    assert b == (b / s.blockAddrs) * s.blockAddrs + b % s.blockAddrs;
  }

  lemma RejoinSecond(s: Shape, b: nat)
    requires s.Valid()
    ensures (2 + s.nids + b / s.blockAddrs) * s.blockAddrs + b % s.blockAddrs
      == 2 * s.blockAddrs + s.IndirectBlks() + b
  {
    Rejoin(s, 2 + s.nids, b);
    assert (2 + s.nids) * s.blockAddrs == 2 * s.blockAddrs + s.nids * s.blockAddrs;
  }

  lemma {:induction false} DindirectLeads(s: Shape, b: nat)
    requires s.Valid() && b < s.DindirectBlks()
    ensures Leads(s, DindirectPath(s, b), s.inodeAddrs + 2 * s.blockAddrs + 2 * s.IndirectBlks() + b)
  {
    var i, j := b / s.IndirectBlks(), (b / s.blockAddrs) % s.nids;
    DindSplit(s, b);
    DindirectBack(s, i, j);
    RejoinDind(s, b, i, j);
  }

  lemma RejoinDind(s: Shape, b: nat, i: nat, j: nat)
    requires s.Valid() && b / s.blockAddrs == i * s.nids + j
    ensures (2 + 2 * s.nids + i * s.nids + j) * s.blockAddrs + b % s.blockAddrs
      == 2 * s.blockAddrs + 2 * s.IndirectBlks() + b
  {
    var d, n := s.blockAddrs, s.nids;
    Rejoin(s, 2 + 2 * n, b);
    assert (2 + 2 * n) * d == 2 * d + 2 * (n * d);
  }

  /** Every page of a file below max_file_size has a path, whether or not the inode keeps xattrs inline. */
  lemma MaxFileSizeInRange(s: Shape, inlineXattrAddrs: nat, defAddrs: nat, page: nat)
    requires s.Valid() && (s.inodeAddrs == defAddrs || s.inodeAddrs == defAddrs - inlineXattrAddrs)
    requires page < MaxPages(s, inlineXattrAddrs, defAddrs)
    ensures GetNodePath(s, page).Path?
  {
    PathLeadsBack(s, page);
  }

  /** No larger size will do: with inline attributes the first page behind it has no path. */
  lemma MaxFileSizeIsLeast(s: Shape, inlineXattrAddrs: nat, defAddrs: nat, page: nat)
    requires s.Valid() && s.inodeAddrs == defAddrs - inlineXattrAddrs
    ensures GetNodePath(s, page).Path? <==> page < MaxPages(s, inlineXattrAddrs, defAddrs)
  {
    PathLeadsBack(s, page);
  }

  // ----- node numbers identify nodes -----

  /** A node is named by the slots followed from the inode; this is its number in pre-order. */
  function NumberOf(s: Shape, slots: seq<nat>): (r: nat)
    requires IsNode(s, slots)
  {
    if slots == [] then 0 else
    var k := slots[0] - s.dir1;
    if k < 2 then 1 + k
    else if k == 2 then (if |slots| == 1 then 3 else 4 + slots[1])
    else if k == 3 then (if |slots| == 1 then 4 + s.nids else 5 + s.nids + slots[1])
    else if |slots| == 1 then 5 + 2 * s.nids
    else if |slots| == 2 then 6 + 2 * s.nids + slots[1] * (s.nids + 1)
    else 7 + 2 * s.nids + slots[1] * (s.nids + 1) + slots[2]
  }

  predicate IsNode(s: Shape, slots: seq<nat>) {
    slots == [] ||
    (&& s.dir1 <= slots[0] < s.dir1 + 5
     && |slots| <= (if slots[0] - s.dir1 < 2 then 1 else if slots[0] - s.dir1 < 4 then 2 else 3)
     && forall k :: 0 < k < |slots| ==> slots[k] < s.nids)
  }

  lemma {:induction false} DindNumber(s: Shape, slots: seq<nat>)
    requires s.Valid() && IsNode(s, slots) && |slots| >= 2 && slots[0] == s.dir1 + 4
    ensures NumberOf(s, slots) >= 6 + 2 * s.nids
    ensures var x := NumberOf(s, slots) - 6 - 2 * s.nids;
      x / (s.nids + 1) == slots[1] && x % (s.nids + 1) == if |slots| == 2 then 0 else slots[2] + 1
  {
    var r := if |slots| == 2 then 0 else slots[2] + 1;
    DivUnique(slots[1] * (s.nids + 1) + r, s.nids + 1, slots[1], r);
  }

  /** Two different nodes of a file never carry the same number. */
  lemma {:induction false} NumbersAreDistinct(s: Shape, a: seq<nat>, b: seq<nat>)
    requires s.Valid() && IsNode(s, a) && IsNode(s, b) && NumberOf(s, a) == NumberOf(s, b)
    ensures a == b
  {
    if |a| >= 2 && a[0] == s.dir1 + 4 { DindNumber(s, a); }
    if |b| >= 2 && b[0] == s.dir1 + 4 { DindNumber(s, b); }
    if a != [] && b != [] {
      assert a[0] == b[0] && |a| == |b|;
      assert |a| >= 2 ==> a[1] == b[1];
      assert |a| == 3 ==> a[2] == b[2];
    }
  }

  /** get_node_path numbers every node on the way by the slots that lead to it. */
  lemma {:induction false} PathNumbers(s: Shape, block: nat, k: nat)
    requires s.Valid() && block < s.Limit()
    requires GetNodePath(s, block).Path? && k < |GetNodePath(s, block).noffset| <= |GetNodePath(s, block).offset|
    ensures IsNode(s, GetNodePath(s, block).offset[..k])
    ensures GetNodePath(s, block).noffset[k] == NumberOf(s, GetNodePath(s, block).offset[..k])
  {
    PathLeadsBack(s, block);
  }
}
