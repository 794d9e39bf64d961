/** The tree of node blocks below an inode, with holes where a node or a data block is missing. */
module NodeTree {
  import opened Geometry

  /** A node block at disk address `blk`: a direct node with data addresses, or an inner node. */
  datatype Tree = Missing | Leaf(blk: int, addrs: seq<int>) | Inner(blk: int, kids: seq<Tree>)

  /** Number of file blocks below a node of the given depth (1 is a direct node). */
  function Size(addrs: nat, nids: nat, depth: nat): nat {
    if depth == 0 then 0 else if depth == 1 then addrs else nids * Size(addrs, nids, depth - 1)
  }

  lemma SizePositive(addrs: nat, nids: nat, depth: nat)
    requires 0 < addrs && 0 < nids && 0 < depth
    ensures 0 < Size(addrs, nids, depth)
  {
    if depth > 1 { SizePositive(addrs, nids, depth - 1); }
  }

  predicate Shaped(addrs: nat, nids: nat, depth: nat, t: Tree)
    decreases depth
  {
    match t
    case Missing => true
    case Leaf(_, a) => depth == 1 && |a| == addrs
    case Inner(_, kids) =>
      depth > 1 && |kids| == nids && forall i :: 0 <= i < nids ==> Shaped(addrs, nids, depth - 1, kids[i])
  }

  /** The data address at index x below the node; NULL_ADDR below anything missing. */
  function Get(addrs: nat, nids: nat, depth: nat, t: Tree, x: nat): int
    requires 0 < addrs && 0 < nids && Shaped(addrs, nids, depth, t)
    decreases depth
  {
    match t
    case Missing => NULL_ADDR
    case Leaf(_, a) => if x < |a| then a[x] else NULL_ADDR
    case Inner(_, kids) =>
      var sz := Size(addrs, nids, depth - 1);
      if sz == 0 || x / sz >= nids then NULL_ADDR else
      Get(addrs, nids, depth - 1, kids[x / sz], x % sz)
  }

  // ----- what a tree owns -----

  function OwnedAddrs(a: seq<int>): multiset<int> {
    if a == [] then multiset{} else
    OwnedAddrs(a[..|a| - 1]) + One(a[|a| - 1])
  }

  function One(x: int): multiset<int> {
    if x == NULL_ADDR then multiset{} else multiset{x}
  }

  /** Every address counts as often as it occurs, and NULL_ADDR not at all. */
  lemma {:induction false} OwnedAddrsAre(a: seq<int>, x: int)
    ensures OwnedAddrs(a)[x] == if x == NULL_ADDR then 0 else multiset(a)[x]
  {
    if a != [] {
      OwnedAddrsAre(a[..|a| - 1], x);
      assert a == a[..|a| - 1] + [a[|a| - 1]];
    }
  }

  /** All blocks of a subtree: its non-NULL data entries and its node blocks. */
  function Owned(t: Tree): multiset<int>
  {
    match t
    case Missing => multiset{}
    case Leaf(blk, a) => OwnedAddrs(a) + multiset{blk}
    case Inner(blk, kids) => OwnedKids(kids) + multiset{blk}
  }

  function OwnedKids(kids: seq<Tree>): multiset<int> {
    if kids == [] then multiset{} else OwnedKids(kids[..|kids| - 1]) + Owned(kids[|kids| - 1])
  }

  /** A subtree owns its own block and all that its kids own; a missing one owns nothing. */
  lemma {:induction false} OwnedIsWhole(t: Tree, i: nat)
    ensures t.Missing? ==> Owned(t) == multiset{}
    ensures !t.Missing? ==> t.blk in Owned(t)
    ensures t.Inner? && i < |t.kids| ==> Owned(t.kids[i]) + multiset{t.blk} <= Owned(t)
  {
    if t.Inner? && i < |t.kids| { KidIsOwned(t.kids, i); }
  }

  lemma {:induction false} KidIsOwned(kids: seq<Tree>, i: nat)
    requires i < |kids|
    ensures Owned(kids[i]) <= OwnedKids(kids)
  {
    var last := |kids| - 1;
    if i < last { KidIsOwned(kids[..last], i); }
  }

  lemma Exchange(a: multiset<int>, b: multiset<int>, c: multiset<int>, d: multiset<int>, e: multiset<int>)
    requires a + b == c + d
    ensures (a + e) + b == (c + e) + d
  {
    assert (a + e) + b == (a + b) + e && (c + e) + d == (c + d) + e;
  }

  lemma {:induction false} OwnedAddrsUpdate(a: seq<int>, i: nat, x: int)
    requires i < |a|
    ensures OwnedAddrs(a[i := x]) + One(a[i]) == OwnedAddrs(a) + One(x)
  {
    var last := |a| - 1;
    var r := a[i := x];
    if i == last {
      assert r[..last] == a[..last];
      assert OwnedAddrs(r) == OwnedAddrs(a[..last]) + One(x);
    } else {
      assert r[..last] == a[..last][i := x];
      OwnedAddrsUpdate(a[..last], i, x);
      Exchange(OwnedAddrs(r[..last]), One(a[i]), OwnedAddrs(a[..last]), One(x), One(a[last]));
    }
  }

  lemma {:induction false} OwnedNulls(a: seq<int>)
    requires forall i :: 0 <= i < |a| ==> a[i] == NULL_ADDR
    ensures OwnedAddrs(a) == multiset{}
  {
    if a != [] { OwnedNulls(a[..|a| - 1]); }
  }

  lemma {:induction false} OwnedKidsUpdate(kids: seq<Tree>, i: nat, t: Tree)
    requires i < |kids|
    ensures OwnedKids(kids[i := t]) + Owned(kids[i]) == OwnedKids(kids) + Owned(t)
  {
    var last := |kids| - 1;
    var r := kids[i := t];
    if i == last {
      assert r[..last] == kids[..last];
      assert OwnedKids(r) == OwnedKids(kids[..last]) + Owned(t);
    } else {
      assert r[..last] == kids[..last][i := t];
      OwnedKidsUpdate(kids[..last], i, t);
      Exchange(OwnedKids(r[..last]), Owned(kids[i]), OwnedKids(kids[..last]), Owned(t), Owned(kids[last]));
      assert OwnedKids(r) == OwnedKids(r[..last]) + Owned(kids[last]);
    }
  }

  lemma {:induction false} OwnedMissing(kids: seq<Tree>)
    requires forall i :: 0 <= i < |kids| ==> kids[i].Missing?
    ensures OwnedKids(kids) == multiset{}
  {
    if kids != [] { OwnedMissing(kids[..|kids| - 1]); }
  }

  // ----- truncation, as a relation -----

  /** No node is left whose first block is at or past index x. */
  ghost predicate Trimmed(addrs: nat, nids: nat, depth: nat, t: Tree, x: int)
    decreases depth
  {
    match t
    case Missing => true
    case Leaf(_, _) => x > 0
    case Inner(_, kids) =>
      x > 0 && depth > 0 &&
      forall i :: 0 <= i < |kids| ==> Trimmed(addrs, nids, depth - 1, kids[i], x - i * Size(addrs, nids, depth - 1))
  }

  /** r is t with everything at or past index `from` gone, nodes included, and everything before it unchanged. */
  ghost predicate CutAt(addrs: nat, nids: nat, depth: nat, t: Tree, r: Tree, from: nat)
    requires 0 < addrs && 0 < nids
  {
    && Shaped(addrs, nids, depth, t) && Shaped(addrs, nids, depth, r)
    && Trimmed(addrs, nids, depth, r, from)
    && Gets(addrs, nids, depth, t, r, from)
  }

  ghost predicate Gets(addrs: nat, nids: nat, depth: nat, t: Tree, r: Tree, from: nat)
    requires 0 < addrs && 0 < nids && Shaped(addrs, nids, depth, t) && Shaped(addrs, nids, depth, r)
  {
    forall x: nat :: Get(addrs, nids, depth, r, x) == if x < from then Get(addrs, nids, depth, t, x) else NULL_ADDR
  }

  /** r is t with the entries lo .. hi gone and all others unchanged. */
  ghost predicate HoleIn(addrs: nat, nids: nat, depth: nat, t: Tree, r: Tree, lo: nat, hi: nat)
    requires 0 < addrs && 0 < nids
  {
    && Shaped(addrs, nids, depth, t) && Shaped(addrs, nids, depth, r)
    && forall x: nat ::
      Get(addrs, nids, depth, r, x) == if lo <= x < hi then NULL_ADDR else Get(addrs, nids, depth, t, x)
  }

  /** Index arithmetic: comparing x with q0 * sz + r0 is comparing quotients, then remainders. */
  lemma {:induction false} SplitOrder(x: nat, sz: nat, q0: nat, r0: nat)
    requires 0 < sz && r0 <= sz
    ensures x < q0 * sz + r0 <==> x / sz < q0 || (x / sz == q0 && x % sz < r0)
  {
    var q, r := x / sz, x % sz;
    assert x == q * sz + r;
    MulLe(q + 1, q0, sz);
    MulLe(q0 + 1, q, sz);
    assert (q + 1) * sz == q * sz + sz && (q0 + 1) * sz == q0 * sz + sz;
  }

  /** Cutting at or past the end of a subtree demands nothing of it. */
  lemma {:induction false} TrimmedFull(addrs: nat, nids: nat, depth: nat, t: Tree, x: int)
    requires 0 < addrs && 0 < nids && Shaped(addrs, nids, depth, t) && 0 < Size(addrs, nids, depth) <= x
    ensures Trimmed(addrs, nids, depth, t, x)
    decreases depth
  {
    if t.Inner? {
      var sz := Size(addrs, nids, depth - 1);
      SizePositive(addrs, nids, depth - 1);
      forall i | 0 <= i < |t.kids| ensures Trimmed(addrs, nids, depth - 1, t.kids[i], x - i * sz) {
        MulLe(i + 1, nids, sz);
        TrimmedFull(addrs, nids, depth - 1, t.kids[i], x - i * sz);
      }
    }
  }

  lemma {:induction false} TrimmedMore(addrs: nat, nids: nat, depth: nat, t: Tree, x: int, y: int)
    requires Trimmed(addrs, nids, depth, t, x) && x <= y
    ensures Trimmed(addrs, nids, depth, t, y)
    decreases depth
  {
    if t.Inner? {
      var sz := Size(addrs, nids, depth - 1);
      forall i | 0 <= i < |t.kids| ensures Trimmed(addrs, nids, depth - 1, t.kids[i], y - i * sz) {
        TrimmedMore(addrs, nids, depth - 1, t.kids[i], x - i * sz, y - i * sz);
      }
    }
  }

  /** Kids before q0 are those of t, kid q0 is cut at r0, and later kids are missing. */
  ghost predicate KidsCutAt(addrs: nat, nids: nat, depth: nat, t: Tree, r: Tree, q0: nat, r0: nat)
    requires 0 < addrs && 0 < nids
  {
    && depth > 1 && t.Inner? && r.Inner? && Shaped(addrs, nids, depth, t) && |r.kids| == nids
    && (forall i :: 0 <= i < nids && i < q0 ==> r.kids[i] == t.kids[i])
    && (q0 < nids ==> CutAt(addrs, nids, depth - 1, t.kids[q0], r.kids[q0], r0))
    && (forall i :: q0 < i < nids ==> r.kids[i].Missing?)
  }

  lemma {:induction false} InnerTrimmed(addrs: nat, nids: nat, depth: nat, t: Tree, r: Tree, q0: nat, r0: nat)
    requires 0 < addrs && 0 < nids && KidsCutAt(addrs, nids, depth, t, r, q0, r0) && 0 < q0 + r0
    ensures Trimmed(addrs, nids, depth, r, q0 * Size(addrs, nids, depth - 1) + r0)
  {
    SizePositive(addrs, nids, depth - 1);
    var sz := Size(addrs, nids, depth - 1);
    MulLe(1, q0, sz);
    forall i | 0 <= i < nids ensures Trimmed(addrs, nids, depth - 1, r.kids[i], q0 * sz + r0 - i * sz) {
      MulLe(i + 1, q0, sz);
      if i < q0 {
        assert r.kids[i] == t.kids[i];
        TrimmedFull(addrs, nids, depth - 1, r.kids[i], q0 * sz + r0 - i * sz);
      } else if i == q0 {
        assert q0 * sz + r0 - i * sz == r0;
      }
    }
  }

  lemma {:induction false} InnerGets(addrs: nat, nids: nat, depth: nat, t: Tree, r: Tree, q0: nat, r0: nat)
    requires 0 < addrs && 0 < nids && KidsCutAt(addrs, nids, depth, t, r, q0, r0)
    requires r0 <= Size(addrs, nids, depth - 1) && Shaped(addrs, nids, depth, r)
    ensures Gets(addrs, nids, depth, t, r, q0 * Size(addrs, nids, depth - 1) + r0)
  {
    SizePositive(addrs, nids, depth - 1);
    var sz := Size(addrs, nids, depth - 1);
    forall x: nat
      ensures Get(addrs, nids, depth, r, x) == if x < q0 * sz + r0 then Get(addrs, nids, depth, t, x) else NULL_ADDR
    {
      SplitOrder(x, sz, q0, r0);
    }
  }

  lemma {:induction false} InnerCut(addrs: nat, nids: nat, depth: nat, t: Tree, r: Tree, q0: nat, r0: nat)
    requires 0 < addrs && 0 < nids && KidsCutAt(addrs, nids, depth, t, r, q0, r0) && 0 < q0 + r0
    requires r0 <= Size(addrs, nids, depth - 1)
    ensures CutAt(addrs, nids, depth, t, r, q0 * Size(addrs, nids, depth - 1) + r0)
  {
    forall i | 0 <= i < nids ensures Shaped(addrs, nids, depth - 1, r.kids[i]) {
      if i < q0 { assert r.kids[i] == t.kids[i]; }
    }
    InnerTrimmed(addrs, nids, depth, t, r, q0, r0);
    InnerGets(addrs, nids, depth, t, r, q0, r0);
  }

  lemma {:induction false} CutAll(addrs: nat, nids: nat, depth: nat, t: Tree)
    requires 0 < addrs && 0 < nids && Shaped(addrs, nids, depth, t)
    ensures CutAt(addrs, nids, depth, t, Missing, 0)
  {
  }

  /** Nothing is stored at lo .. hi. */
  ghost predicate Gap(addrs: nat, nids: nat, depth: nat, t: Tree, lo: nat, hi: nat)
    requires 0 < addrs && 0 < nids
  {
    Shaped(addrs, nids, depth, t) && forall x: nat :: lo <= x < hi ==> Get(addrs, nids, depth, t, x) == NULL_ADDR
  }

  /** Cutting further back than asked is the same when nothing was stored in between. */
  lemma {:induction false} CutOverGap(addrs: nat, nids: nat, depth: nat, t: Tree, r: Tree, lo: nat, hi: nat)
    requires 0 < addrs && 0 < nids && lo <= hi
    requires CutAt(addrs, nids, depth, t, r, lo) && Gap(addrs, nids, depth, t, lo, hi)
    ensures CutAt(addrs, nids, depth, t, r, hi)
  {
    TrimmedMore(addrs, nids, depth, r, lo, hi);
  }

  lemma {:induction false} KidGap(addrs: nat, nids: nat, depth: nat, t: Tree, q: nat, lo: nat, hi: nat)
    requires 0 < addrs && 0 < nids && depth > 1 && t.Inner? && Shaped(addrs, nids, depth, t) && q < nids
    requires lo <= hi <= Size(addrs, nids, depth - 1) && Gap(addrs, nids, depth - 1, t.kids[q], lo, hi)
    ensures Gap(addrs, nids, depth, t, q * Size(addrs, nids, depth - 1) + lo, q * Size(addrs, nids, depth - 1) + hi)
  {
    var sz := Size(addrs, nids, depth - 1);
    SizePositive(addrs, nids, depth - 1);
    forall x: nat | q * sz + lo <= x < q * sz + hi ensures Get(addrs, nids, depth, t, x) == NULL_ADDR {
      SplitOrder(x, sz, q, lo);
      SplitOrder(x, sz, q, hi);
    }
  }

  // ----- following a path of slots -----

  /** The slots of a path below a root, from the top; the last one is a slot of a direct node. */
  predicate InRange(addrs: nat, nids: nat, off: seq<nat>) {
    off != [] && off[|off| - 1] < addrs && forall k :: 0 <= k < |off| - 1 ==> off[k] < nids
  }

  function Index(addrs: nat, nids: nat, off: seq<nat>): (x: nat) {
    if off == [] then 0
    else if |off| == 1 then off[0]
    else off[0] * Size(addrs, nids, |off| - 1) + Index(addrs, nids, off[1..])
  }

  /** The address found by walking down the slots, as get_dnode_of_data and datablock_addr do. */
  function Follow(addrs: nat, nids: nat, t: Tree, off: seq<nat>): int
    requires InRange(addrs, nids, off) && Shaped(addrs, nids, |off|, t)
    decreases |off|
  {
    match t
    case Missing => NULL_ADDR
    case Leaf(_, a) => a[off[0]]
    case Inner(_, kids) => Follow(addrs, nids, kids[off[0]], off[1..])
  }

  /** Does the walk reach a direct node? */
  predicate HasLeaf(addrs: nat, nids: nat, t: Tree, off: seq<nat>)
    requires InRange(addrs, nids, off) && Shaped(addrs, nids, |off|, t)
    decreases |off|
  {
    match t
    case Missing => false
    case Leaf(_, _) => true
    case Inner(_, kids) => HasLeaf(addrs, nids, kids[off[0]], off[1..])
  }

  /** The direct node reached lies between its first index and the end of the subtree. */
  lemma {:induction false} IndexBound(addrs: nat, nids: nat, off: seq<nat>)
    requires 0 < addrs && 0 < nids && InRange(addrs, nids, off)
    ensures off[|off| - 1] <= Index(addrs, nids, off)
    ensures Index(addrs, nids, off) - off[|off| - 1] + addrs <= Size(addrs, nids, |off|)
    decreases |off|
  {
    if |off| > 1 {
      IndexBound(addrs, nids, off[1..]);
      NextKid(off[0], nids, Size(addrs, nids, |off| - 1));
    }
  }

  lemma NextKid(q: nat, n: nat, sz: nat)
    requires q < n
    ensures q * sz + sz <= n * sz
  {
    MulLe(q + 1, n, sz);
  }

  /** Walking the slots finds what is stored at their index. */
  lemma {:induction false} FollowIsGet(addrs: nat, nids: nat, t: Tree, off: seq<nat>)
    requires 0 < addrs && 0 < nids && InRange(addrs, nids, off) && Shaped(addrs, nids, |off|, t)
    ensures Follow(addrs, nids, t, off) == Get(addrs, nids, |off|, t, Index(addrs, nids, off))
    decreases |off|
  {
    if t.Inner? {
      var sz := Size(addrs, nids, |off| - 1);
      IndexBound(addrs, nids, off[1..]);
      DivUnique(Index(addrs, nids, off), sz, off[0], Index(addrs, nids, off[1..]));
      FollowIsGet(addrs, nids, t.kids[off[0]], off[1..]);
    }
  }

  /** When the walk reaches no direct node, nothing is stored where that node would be. */
  lemma {:induction false} NoLeafGap(addrs: nat, nids: nat, t: Tree, off: seq<nat>)
    requires 0 < addrs && 0 < nids && InRange(addrs, nids, off) && Shaped(addrs, nids, |off|, t)
    requires !HasLeaf(addrs, nids, t, off)
    ensures off[|off| - 1] <= Index(addrs, nids, off)
    ensures Gap(addrs, nids, |off|, t, Index(addrs, nids, off) - off[|off| - 1], Index(addrs, nids, off))
    decreases |off|
  {
    IndexBound(addrs, nids, off);
    if t.Inner? {
      NoLeafGap(addrs, nids, t.kids[off[0]], off[1..]);
      IndexBound(addrs, nids, off[1..]);
      var x := Index(addrs, nids, off[1..]);
      KidGap(addrs, nids, |off|, t, off[0], x - off[|off| - 1], x);
    }
  }

  /** Emptying a stretch of one kid. */
  lemma {:induction false} KidHole(addrs: nat, nids: nat, depth: nat, t: Tree, q: nat, kid: Tree, lo: nat, hi: nat)
    requires 0 < addrs && 0 < nids && depth > 1 && t.Inner? && Shaped(addrs, nids, depth, t) && q < nids
    requires lo <= hi <= Size(addrs, nids, depth - 1) && HoleIn(addrs, nids, depth - 1, t.kids[q], kid, lo, hi)
    ensures HoleIn(addrs, nids, depth, t, Inner(t.blk, t.kids[q := kid]),
                   q * Size(addrs, nids, depth - 1) + lo, q * Size(addrs, nids, depth - 1) + hi)
  {
    var sz := Size(addrs, nids, depth - 1);
    var r := Inner(t.blk, t.kids[q := kid]);
    forall i | 0 <= i < nids ensures Shaped(addrs, nids, depth - 1, r.kids[i]) {
      assert i != q ==> r.kids[i] == t.kids[i];
    }
    forall x: nat
      ensures Get(addrs, nids, depth, r, x) == if q * sz + lo <= x < q * sz + hi then NULL_ADDR else Get(addrs, nids, depth, t, x)
    {
      KidHoleAt(addrs, nids, depth, t, r, q, lo, hi, x);
    }
  }

  lemma {:induction false} KidHoleAt(addrs: nat, nids: nat, depth: nat, t: Tree, r: Tree, q: nat, lo: nat, hi: nat, x: nat)
    requires 0 < addrs && 0 < nids && depth > 1 && t.Inner? && r.Inner? && q < nids
    requires Shaped(addrs, nids, depth, t) && Shaped(addrs, nids, depth, r) && r.kids == t.kids[q := r.kids[q]]
    requires lo <= hi <= Size(addrs, nids, depth - 1) && HoleIn(addrs, nids, depth - 1, t.kids[q], r.kids[q], lo, hi)
    ensures var sz := Size(addrs, nids, depth - 1);
      Get(addrs, nids, depth, r, x) == if q * sz + lo <= x < q * sz + hi then NULL_ADDR else Get(addrs, nids, depth, t, x)
  {
    SizePositive(addrs, nids, depth - 1);
    InKid(x, Size(addrs, nids, depth - 1), q, lo, hi);
  }

  /** A stretch of one kid, told by quotient and remainder. */
  lemma InKid(x: nat, sz: nat, q: nat, lo: nat, hi: nat)
    requires 0 < sz && lo <= hi <= sz
    ensures q * sz + lo <= x < q * sz + hi <==> x / sz == q && lo <= x % sz < hi
  {
    SplitOrder(x, sz, q, lo);
    SplitOrder(x, sz, q, hi);
  }
}
