/** A whole file: the addresses kept in its inode and the five trees below it, as one map from blocks to addresses. */
module FileMap {
  import opened Geometry
  import opened NodePath
  import opened NodeTree

  /** i_addr and i_nid of an inode. */
  datatype File = File(addrs: seq<int>, roots: seq<Tree>)

  function Depth(r: nat): nat { if r < 2 then 1 else if r < 4 then 2 else 3 }

  predicate RootsShaped(s: Shape, roots: seq<Tree>) {
    |roots| == 5 && forall r :: 0 <= r < 5 ==> Shaped(s.blockAddrs, s.nids, Depth(r), roots[r])
  }

  predicate FileShaped(s: Shape, f: File) {
    |f.addrs| == s.inodeAddrs && RootsShaped(s, f.roots)
  }

  /** The first file block below root r. */
  function Base(s: Shape, r: nat): (b: nat)
    ensures b >= s.inodeAddrs
  {
    if r == 0 then s.inodeAddrs else Base(s, r - 1) + Size(s.blockAddrs, s.nids, Depth(r - 1))
  }

  function GetBelow(s: Shape, roots: seq<Tree>, r: nat, b: nat): int
    requires s.Valid() && RootsShaped(s, roots) && r <= 5 && Base(s, r) <= b
    decreases 5 - r
  {
    if r == 5 then NULL_ADDR
    else if b < Base(s, r + 1) then Get(s.blockAddrs, s.nids, Depth(r), roots[r], b - Base(s, r))
    else GetBelow(s, roots, r + 1, b)
  }

  /** The file as a map: the address of block b, NULL_ADDR where there is none. */
  function FileGet(s: Shape, f: File, b: nat): int
    requires s.Valid() && FileShaped(s, f)
  {
    if b < s.inodeAddrs then f.addrs[b] else GetBelow(s, f.roots, 0, b)
  }

  // ----- the map is what walking get_node_path's offsets finds -----

  lemma SizeTwo(s: Shape)
    requires s.Valid()
    ensures Size(s.blockAddrs, s.nids, 1) == s.blockAddrs && Size(s.blockAddrs, s.nids, 2) == s.IndirectBlks()
    ensures Size(s.blockAddrs, s.nids, 3) == s.DindirectBlks()
  {
    assert Size(s.blockAddrs, s.nids, 2) == s.nids * s.blockAddrs;
    assert Size(s.blockAddrs, s.nids, 3) == s.nids * Size(s.blockAddrs, s.nids, 2);
  }

  lemma Bases(s: Shape)
    requires s.Valid()
    ensures Base(s, 0) == s.inodeAddrs && Base(s, 1) == s.inodeAddrs + s.blockAddrs
    ensures Base(s, 2) == s.inodeAddrs + 2 * s.blockAddrs && Base(s, 3) == Base(s, 2) + s.IndirectBlks()
    ensures Base(s, 4) == Base(s, 3) + s.IndirectBlks() && Base(s, 5) == s.Limit()
  {
    SizeTwo(s);
    assert Base(s, 1) == Base(s, 0) + Size(s.blockAddrs, s.nids, Depth(0));
    assert Base(s, 2) == Base(s, 1) + Size(s.blockAddrs, s.nids, Depth(1));
    assert Base(s, 3) == Base(s, 2) + Size(s.blockAddrs, s.nids, Depth(2));
    assert Base(s, 4) == Base(s, 3) + Size(s.blockAddrs, s.nids, Depth(3));
    assert Base(s, 5) == Base(s, 4) + Size(s.blockAddrs, s.nids, Depth(4));
  }

  /** The offsets of a path past the inode: which root, and the slots below it. */
  ghost predicate Walks(s: Shape, off: seq<nat>, b: nat) {
    && 2 <= |off| <= 4 && s.dir1 <= off[0] < s.dir1 + 5 && |off| - 1 == Depth(off[0] - s.dir1)
    && InRange(s.blockAddrs, s.nids, off[1..])
    && Base(s, off[0] - s.dir1) + Index(s.blockAddrs, s.nids, off[1..]) == b
  }

  lemma IndexTwo(s: Shape, i: nat, x: nat)
    ensures Index(s.blockAddrs, s.nids, [i, x]) == i * s.blockAddrs + x
  {
    assert [i, x][1..] == [x];
  }

  lemma IndexThree(s: Shape, i: nat, j: nat, x: nat)
    requires s.Valid()
    ensures Index(s.blockAddrs, s.nids, [i, j, x]) == i * s.IndirectBlks() + (j * s.blockAddrs + x)
  {
    assert [i, j, x][1..] == [j, x];
    IndexTwo(s, j, x);
    SizeTwo(s);
  }

  lemma {:induction false} WalkDirect(s: Shape, r: nat, x: nat)
    requires s.Valid() && r < 2 && x < s.blockAddrs
    ensures Walks(s, [s.dir1 + r, x], Base(s, r) + x)
  {
    assert [s.dir1 + r, x][1..] == [x];
  }

  lemma {:induction false} WalkIndirect(s: Shape, r: nat, b: nat)
    requires s.Valid() && 2 <= r < 4 && b < s.IndirectBlks()
    ensures Walks(s, [s.dir1 + r, b / s.blockAddrs, b % s.blockAddrs], Base(s, r) + b)
  {
    DivBound(b, s.blockAddrs, s.nids);
    IndexTwo(s, b / s.blockAddrs, b % s.blockAddrs);
    assert [s.dir1 + r, b / s.blockAddrs, b % s.blockAddrs][1..] == [b / s.blockAddrs, b % s.blockAddrs];
  }

  lemma {:induction false} WalkThree(s: Shape, i: nat, j: nat, x: nat)
    requires s.Valid() && i < s.nids && j < s.nids && x < s.blockAddrs
    ensures Walks(s, [s.dir1 + 4, i, j, x], Base(s, 4) + (i * s.IndirectBlks() + (j * s.blockAddrs + x)))
  {
    IndexThree(s, i, j, x);
    assert [s.dir1 + 4, i, j, x][1..] == [i, j, x];
  }

  lemma {:induction false} WalkDindirect(s: Shape, b: nat)
    requires s.Valid() && b < s.DindirectBlks()
    ensures Walks(s, DindirectPath(s, b).offset, Base(s, 4) + b)
  {
    var i, j, x := b / s.IndirectBlks(), (b / s.blockAddrs) % s.nids, b % s.blockAddrs;
    DindSplit(s, b);
    JoinThree(s, b, i, j, x);
    WalkThree(s, i, j, x);
  }

  lemma JoinThree(s: Shape, b: nat, i: nat, j: nat, x: nat)
    requires s.Valid() && b / s.blockAddrs == i * s.nids + j && b % s.blockAddrs == x && j < s.nids
    ensures i * s.IndirectBlks() + (j * s.blockAddrs + x) == b
  {
    Regroup(i, s.nids, j, s.blockAddrs, x);
    assert b == b / s.blockAddrs * s.blockAddrs + b % s.blockAddrs;
  }

  /** get_node_path past the inode: a root and slots below it whose index is the block. */
  lemma DirectWalks(s: Shape, b: nat)
    requires s.Valid() && s.inodeAddrs <= b < Base(s, 2)
    ensures GetNodePath(s, b).Path? && Walks(s, GetNodePath(s, b).offset, b)
  {
    Bases(s);
    var r := if b < Base(s, 1) then 0 else 1;
    WalkDirect(s, r, b - Base(s, r));
  }

  lemma IndirectWalks(s: Shape, r: nat, b: nat)
    requires s.Valid() && 2 <= r < 4 && Base(s, r) <= b < Base(s, r) + s.IndirectBlks()
    ensures GetNodePath(s, b).Path? && Walks(s, GetNodePath(s, b).offset, b)
  {
    Bases(s);
    WalkIndirect(s, r, b - Base(s, r));
  }

  lemma {:induction false} PathWalks(s: Shape, b: nat)
    requires s.Valid() && s.inodeAddrs <= b < s.Limit()
    ensures GetNodePath(s, b).Path? && Walks(s, GetNodePath(s, b).offset, b)
  {
    Bases(s);
    if b < Base(s, 2) { DirectWalks(s, b); }
    else if b < Base(s, 3) { IndirectWalks(s, 2, b); }
    else if b < Base(s, 4) { IndirectWalks(s, 3, b); }
    else { WalkDindirect(s, b - Base(s, 4)); }
  }

  /** The slow lookup: get_node_path, then the slots one by one; out of range it is a BUG and finds nothing. */
  function Lookup(s: Shape, f: File, b: nat): int
    requires s.Valid() && FileShaped(s, f)
  {
    if b < s.inodeAddrs then f.addrs[b]
    else if b >= s.Limit() then NULL_ADDR
    else
      PathWalks(s, b);
      var off := GetNodePath(s, b).offset;
      Follow(s.blockAddrs, s.nids, f.roots[off[0] - s.dir1], off[1..])
  }

  /** Roots follow each other without overlap. */
  lemma {:induction false} BaseOrder(s: Shape, q: nat, r: nat)
    requires s.Valid() && q < r
    ensures Base(s, q) + Size(s.blockAddrs, s.nids, Depth(q)) <= Base(s, r)
  {
    if q + 1 < r { BaseOrder(s, q, r - 1); }
  }

  /** A block between two bases is found below that root. */
  lemma {:induction false} BelowRoot(s: Shape, roots: seq<Tree>, q: nat, r: nat, b: nat)
    requires s.Valid() && RootsShaped(s, roots) && q <= r < 5 && Base(s, q) <= b && Base(s, r) <= b < Base(s, r + 1)
    ensures GetBelow(s, roots, q, b) == Get(s.blockAddrs, s.nids, Depth(r), roots[r], b - Base(s, r))
    decreases r - q
  {
    if q < r {
      BaseOrder(s, q, r);
      BelowRoot(s, roots, q + 1, r, b);
    }
  }

  lemma {:induction false} NothingBeyond(s: Shape, roots: seq<Tree>, q: nat, b: nat)
    requires s.Valid() && RootsShaped(s, roots) && q <= 5 && Base(s, 5) <= b && Base(s, q) <= b
    ensures GetBelow(s, roots, q, b) == NULL_ADDR
    decreases 5 - q
  {
    if q < 5 {
      if q < 4 { BaseOrder(s, q + 1, 5); }
      NothingBeyond(s, roots, q + 1, b);
    }
  }

  lemma {:induction false} WalkFinds(s: Shape, f: File, b: nat, off: seq<nat>)
    requires s.Valid() && FileShaped(s, f) && s.inodeAddrs <= b && Walks(s, off, b)
    ensures Follow(s.blockAddrs, s.nids, f.roots[off[0] - s.dir1], off[1..]) == FileGet(s, f, b)
  {
    var r := off[0] - s.dir1;
    Bases(s);
    IndexBound(s.blockAddrs, s.nids, off[1..]);
    BelowRoot(s, f.roots, 0, r, b);
    FollowIsGet(s.blockAddrs, s.nids, f.roots[r], off[1..]);
  }

  lemma {:induction false} LookupIsFileGet(s: Shape, f: File, b: nat)
    requires s.Valid() && FileShaped(s, f)
    ensures Lookup(s, f, b) == FileGet(s, f, b)
  {
    Bases(s);
    if s.inodeAddrs <= b < s.Limit() {
      PathWalks(s, b);
      WalkFinds(s, f, b, GetNodePath(s, b).offset);
    } else if b >= s.Limit() {
      NothingBeyond(s, f.roots, 0, b);
    }
  }

  // ----- cutting a file -----

  /** Roots before r0 unchanged, root r0 cut at index x0, roots after it gone. */
  ghost predicate RootsCut(s: Shape, before: seq<Tree>, after: seq<Tree>, r0: nat, x0: nat)
    requires s.Valid()
  {
    && RootsShaped(s, before) && RootsShaped(s, after) && r0 < 5
    && (forall i :: 0 <= i < r0 ==> after[i] == before[i])
    && CutAt(s.blockAddrs, s.nids, Depth(r0), before[r0], after[r0], x0)
    && (forall i :: r0 < i < 5 ==> after[i].Missing?)
  }

  /** No node block is left whose first file block is at or past `from`. */
  ghost predicate FileTrimmed(s: Shape, roots: seq<Tree>, from: nat)
    requires |roots| == 5
  {
    forall r :: 0 <= r < 5 ==> Trimmed(s.blockAddrs, s.nids, Depth(r), roots[r], from - Base(s, r))
  }

  /** g is f with every block at or past `from` unmapped, later node blocks gone, and everything before unchanged. */
  ghost predicate FileCut(s: Shape, f: File, g: File, from: nat)
    requires s.Valid()
  {
    && FileShaped(s, f) && FileShaped(s, g) && FileTrimmed(s, g.roots, from)
    && forall b: nat :: FileGet(s, g, b) == if b < from then FileGet(s, f, b) else NULL_ADDR
  }

  lemma {:induction false} GetAfterCut(s: Shape, before: seq<Tree>, after: seq<Tree>, r0: nat, x0: nat, q: nat, b: nat)
    requires s.Valid() && RootsCut(s, before, after, r0, x0) && x0 <= Size(s.blockAddrs, s.nids, Depth(r0))
    requires q <= 5 && Base(s, q) <= b
    ensures GetBelow(s, after, q, b) == if b < Base(s, r0) + x0 then GetBelow(s, before, q, b) else NULL_ADDR
    decreases 5 - q
  {
    if q < r0 { BaseOrder(s, q, r0); }
    if r0 < q { BaseOrder(s, r0, q); }
    if q < 5 && b >= Base(s, q + 1) {
      GetAfterCut(s, before, after, r0, x0, q + 1, b);
    }
  }

  lemma {:induction false} TrimmedRoots(s: Shape, before: seq<Tree>, after: seq<Tree>, r0: nat, x0: nat)
    requires s.Valid() && RootsCut(s, before, after, r0, x0)
    ensures FileTrimmed(s, after, Base(s, r0) + x0)
  {
    forall r | 0 <= r < 5
      ensures Trimmed(s.blockAddrs, s.nids, Depth(r), after[r], Base(s, r0) + x0 - Base(s, r))
    {
      if r < r0 {
        BaseOrder(s, r, r0);
        SizePositive(s.blockAddrs, s.nids, Depth(r));
        TrimmedFull(s.blockAddrs, s.nids, Depth(r), after[r], Base(s, r0) + x0 - Base(s, r));
      }
    }
  }

  lemma {:induction false} CutRootsCutFile(s: Shape, f: File, g: File, r0: nat, x0: nat)
    requires s.Valid() && FileShaped(s, f) && g.addrs == f.addrs && RootsCut(s, f.roots, g.roots, r0, x0)
    requires x0 <= Size(s.blockAddrs, s.nids, Depth(r0))
    ensures FileCut(s, f, g, Base(s, r0) + x0)
  {
    TrimmedRoots(s, f.roots, g.roots, r0, x0);
    forall b: nat
      ensures FileGet(s, g, b) == if b < Base(s, r0) + x0 then FileGet(s, f, b) else NULL_ADDR
    {
      if b >= s.inodeAddrs { GetAfterCut(s, f.roots, g.roots, r0, x0, 0, b); }
    }
  }

  // ----- a hole below one root -----

  ghost predicate FileHole(s: Shape, f: File, g: File, lo: nat, hi: nat)
    requires s.Valid()
  {
    && FileShaped(s, f) && FileShaped(s, g)
    && forall b: nat :: FileGet(s, g, b) == if lo <= b < hi then NULL_ADDR else FileGet(s, f, b)
  }

  lemma {:induction false} GetAfterHole(s: Shape, roots: seq<Tree>, r: nat, t: Tree, lo: nat, hi: nat, q: nat, b: nat)
    requires s.Valid() && RootsShaped(s, roots) && r < 5 && HoleIn(s.blockAddrs, s.nids, Depth(r), roots[r], t, lo, hi)
    requires hi <= Size(s.blockAddrs, s.nids, Depth(r)) && q <= 5 && Base(s, q) <= b
    ensures GetBelow(s, roots[r := t], q, b)
      == if q <= r && Base(s, r) + lo <= b < Base(s, r) + hi then NULL_ADDR else GetBelow(s, roots, q, b)
    decreases 5 - q
  {
    if q < r { BaseOrder(s, q, r); }
    if r < q { BaseOrder(s, r, q); }
    if q < 5 && b >= Base(s, q + 1) {
      GetAfterHole(s, roots, r, t, lo, hi, q + 1, b);
    }
  }

  lemma {:induction false} HoleBelowRoot(s: Shape, f: File, r: nat, t: Tree, lo: nat, hi: nat)
    requires s.Valid() && FileShaped(s, f) && r < 5
    requires HoleIn(s.blockAddrs, s.nids, Depth(r), f.roots[r], t, lo, hi)
    requires lo <= hi <= Size(s.blockAddrs, s.nids, Depth(r))
    ensures FileHole(s, f, File(f.addrs, f.roots[r := t]), Base(s, r) + lo, Base(s, r) + hi)
  {
    var g := File(f.addrs, f.roots[r := t]);
    forall b: nat
      ensures FileGet(s, g, b) == if Base(s, r) + lo <= b < Base(s, r) + hi then NULL_ADDR else FileGet(s, f, b)
    {
      if b >= s.inodeAddrs { GetAfterHole(s, f.roots, r, t, lo, hi, 0, b); }
    }
  }

  // ----- no node begins inside a direct node -----

  function Units(nids: nat, depth: nat): nat {
    if depth <= 1 then 1 else nids * Units(nids, depth - 1)
  }

  lemma {:induction false} SizeInUnits(addrs: nat, nids: nat, depth: nat)
    requires depth > 0
    ensures Size(addrs, nids, depth) == Units(nids, depth) * addrs
  {
    if depth > 1 {
      SizeInUnits(addrs, nids, depth - 1);
      assert nids * (Units(nids, depth - 1) * addrs) == (nids * Units(nids, depth - 1)) * addrs;
    }
  }

  /** A cut at the end of a direct node is also a cut anywhere inside it, past its first block. */
  lemma {:induction false} TrimmedInside(addrs: nat, nids: nat, depth: nat, t: Tree, m: int, y: nat)
    requires 0 < addrs && 0 < nids && Shaped(addrs, nids, depth, t) && 0 < y <= addrs
    requires Trimmed(addrs, nids, depth, t, m * addrs)
    ensures Trimmed(addrs, nids, depth, t, m * addrs - addrs + y)
    decreases depth
  {
    MulLe(1, m, addrs);
    MulLe(m, 0, addrs);
    if t.Inner? {
      var sz, u := Size(addrs, nids, depth - 1), Units(nids, depth - 1);
      SizeInUnits(addrs, nids, depth - 1);
      forall i | 0 <= i < |t.kids|
        ensures Trimmed(addrs, nids, depth - 1, t.kids[i], m * addrs - addrs + y - i * sz)
      {
        KidUnits(m, i, u, addrs);
        TrimmedInside(addrs, nids, depth - 1, t.kids[i], m - i * u, y);
      }
    }
  }

  lemma KidUnits(m: int, i: nat, u: nat, addrs: nat)
    ensures (m - i * u) * addrs == m * addrs - i * (u * addrs)
  {
    assert (i * u) * addrs == i * (u * addrs);
  }

  lemma Distribute(a: nat, b: nat, c: nat)
    ensures (a + b) * c == a * c + b * c
  {
  }

  lemma {:induction false} BaseInUnits(s: Shape, r: nat) returns (m: nat)
    ensures Base(s, r) == s.inodeAddrs + m * s.blockAddrs
  {
    m := 0;
    if r > 0 {
      var k := BaseInUnits(s, r - 1);
      SizeInUnits(s.blockAddrs, s.nids, Depth(r - 1));
      m := k + Units(s.nids, Depth(r - 1));
      Distribute(k, Units(s.nids, Depth(r - 1)), s.blockAddrs);
    }
  }

  lemma {:induction false} IndexInUnits(addrs: nat, nids: nat, off: seq<nat>) returns (m: nat)
    requires off != []
    ensures Index(addrs, nids, off) == m * addrs + off[|off| - 1]
  {
    m := 0;
    if |off| > 1 {
      var k := IndexInUnits(addrs, nids, off[1..]);
      SizeInUnits(addrs, nids, |off| - 1);
      var u := Units(nids, |off| - 1);
      m := off[0] * u + k;
      KidUnits(0, off[0], u, addrs);
      assert (off[0] * u) * addrs == off[0] * (u * addrs);
      assert m * addrs == (off[0] * u) * addrs + k * addrs;
    }
  }

  lemma {:induction false} RootTrimmedInside(s: Shape, r: nat, t: Tree, m: nat, y: nat)
    requires s.Valid() && Shaped(s.blockAddrs, s.nids, Depth(r), t) && 0 < y <= s.blockAddrs
    requires Trimmed(s.blockAddrs, s.nids, Depth(r), t, s.inodeAddrs + m * s.blockAddrs - Base(s, r))
    ensures Trimmed(s.blockAddrs, s.nids, Depth(r), t, s.inodeAddrs + m * s.blockAddrs - s.blockAddrs + y - Base(s, r))
  {
    var k := BaseInUnits(s, r);
    UnitDiff(m, k, s.blockAddrs);
    TrimmedInside(s.blockAddrs, s.nids, Depth(r), t, m - k, y);
  }

  lemma UnitDiff(m: int, k: int, d: nat)
    ensures (m - k) * d == m * d - k * d
  {
  }

  lemma {:induction false} FileTrimmedInside(s: Shape, roots: seq<Tree>, m: nat, y: nat)
    requires s.Valid() && RootsShaped(s, roots) && 0 < y <= s.blockAddrs
    requires FileTrimmed(s, roots, s.inodeAddrs + (m + 1) * s.blockAddrs)
    ensures FileTrimmed(s, roots, s.inodeAddrs + m * s.blockAddrs + y)
  {
    UnitDiff(m + 1, 1, s.blockAddrs);
    forall r | 0 <= r < 5
      ensures Trimmed(s.blockAddrs, s.nids, Depth(r), roots[r], s.inodeAddrs + m * s.blockAddrs + y - Base(s, r))
    {
      RootTrimmedInside(s, r, roots[r], m + 1, y);
    }
  }

  // ----- the two stages of truncate_blocks together -----

  lemma {:induction false} HoleThenCut(s: Shape, f: File, mid: File, g: File, m: nat, x: nat)
    requires s.Valid() && 0 < x <= s.blockAddrs
    requires FileHole(s, f, mid, s.inodeAddrs + m * s.blockAddrs + x, s.inodeAddrs + (m + 1) * s.blockAddrs)
    requires FileCut(s, mid, g, s.inodeAddrs + (m + 1) * s.blockAddrs)
    ensures FileCut(s, f, g, s.inodeAddrs + m * s.blockAddrs + x)
  {
    assert (m + 1) * s.blockAddrs == m * s.blockAddrs + s.blockAddrs;
    FileTrimmedInside(s, g.roots, m, x);
  }

  /** Cutting inside the inode: its own addresses from `from` on, and every root. */
  lemma {:induction false} InodeThenCut(s: Shape, f: File, mid: File, g: File, from: nat)
    requires s.Valid() && FileShaped(s, f) && from < s.inodeAddrs && mid.roots == f.roots && |mid.addrs| == |f.addrs|
    requires forall i :: 0 <= i < |f.addrs| ==> mid.addrs[i] == if from <= i then NULL_ADDR else f.addrs[i]
    requires g.addrs == mid.addrs && FileCut(s, mid, g, s.inodeAddrs) && FileTrimmed(s, g.roots, from)
    ensures FileCut(s, f, g, from)
  {
  }
}
