/**
 * A table on disk: a journal in front of paired blocks, one of each pair selected by a version bit.  The
 * node address table and the segment information table are kept this way (node.h, node.c, segment.c).
 */
module TableLayout {
  import opened Geometry

  datatype JournalEntry<T> = JournalEntry(key: nat, value: T)

  datatype Layout = Layout(perBlock: nat, blocks: nat, blocksPerSeg: nat, base: int, journalMax: nat)
  {
    ghost predicate Valid() { 0 < perBlock && 0 < blocksPerSeg }

    function MaxKey(): nat { perBlock * blocks }

    function BlockOf(key: nat): nat
      requires 0 < perBlock
    {
      key / perBlock
    }
  }

  /** current_nat_addr: segments come in pairs, and the version bit picks one of the two. */
  function CopyAddr(l: Layout, b: nat, bit: bool): int
    requires 0 < l.blocksPerSeg
  {
    l.base + (b / l.blocksPerSeg) * l.blocksPerSeg * 2 + b % l.blocksPerSeg + (if bit then l.blocksPerSeg else 0)
  }

  /** next_nat_addr. */
  function NextAddr(l: Layout, addr: int): int
    requires 0 < l.blocksPerSeg
  {
    var rel := addr - l.base;
    (if (rel / l.blocksPerSeg) % 2 == 1 then rel - l.blocksPerSeg else rel + l.blocksPerSeg) + l.base
  }

  lemma RowMul(q: nat, d: nat)
    ensures q * d * 2 == (2 * q) * d && (2 * q + 1) * d == q * d * 2 + d
  {
  }

  lemma {:induction false} CopyRow(l: Layout, b: nat, bit: bool)
    requires l.Valid()
    ensures (CopyAddr(l, b, bit) - l.base) / l.blocksPerSeg == 2 * (b / l.blocksPerSeg) + (if bit then 1 else 0)
    ensures (CopyAddr(l, b, bit) - l.base) % l.blocksPerSeg == b % l.blocksPerSeg
  {
    var d := l.blocksPerSeg;
    var q := b / d;
    RowMul(q, d);
    DivUnique(CopyAddr(l, b, bit) - l.base, d, if bit then 2 * q + 1 else 2 * q, b % d);
  }

  /** next_nat_addr leads from either copy of a block to the other. */
  lemma {:induction false} NextIsTheOtherCopy(l: Layout, b: nat, bit: bool)
    requires l.Valid()
    ensures NextAddr(l, CopyAddr(l, b, bit)) == CopyAddr(l, b, !bit)
  {
    CopyRow(l, b, bit);
  }

  /** No two copies of any two blocks share an address. */
  lemma {:induction false} CopiesDisjoint(l: Layout, b: nat, bit: bool, b': nat, bit': bool)
    requires l.Valid()
    ensures CopyAddr(l, b, bit) == CopyAddr(l, b', bit') ==> b == b' && bit == bit'
  {
    CopyRow(l, b, bit);
    CopyRow(l, b', bit');
    if CopyAddr(l, b, bit) == CopyAddr(l, b', bit') {
      SameRow(b / l.blocksPerSeg, bit, b' / l.blocksPerSeg, bit');
      SameQuotient(b, b', l.blocksPerSeg);
    }
  }

  lemma SameRow(q: nat, bit: bool, q': nat, bit': bool)
    requires 2 * q + (if bit then 1 else 0) == 2 * q' + (if bit' then 1 else 0)
    ensures q == q' && bit == bit'
  {
  }

  lemma SameQuotient(a: nat, b: nat, d: nat)
    requires 0 < d && a / d == b / d && a % d == b % d
    ensures a == b
  {
    assert a == (a / d) * d + a % d && b == (b / d) * d + b % d;
  }

  /** Journal, version bits and the blocks of both copies. */
  datatype Store<T> = Store(journal: seq<JournalEntry<T>>, bitmap: seq<bool>, pages: map<int, seq<T>>)

  function CurAddr<T>(l: Layout, s: Store<T>, b: nat): int
    requires 0 < l.blocksPerSeg && b < |s.bitmap|
  {
    CopyAddr(l, b, s.bitmap[b])
  }

  ghost predicate HasPages<T>(l: Layout, s: Store<T>)
    requires l.Valid()
  {
    && |s.bitmap| == l.blocks
    && forall b, bit :: 0 <= b < l.blocks ==>
        CopyAddr(l, b, bit) in s.pages && |s.pages[CopyAddr(l, b, bit)]| == l.perBlock
  }

  ghost predicate JournalOk<T>(l: Layout, j: seq<JournalEntry<T>>) {
    && |j| <= l.journalMax
    && (forall i :: 0 <= i < |j| ==> j[i].key < l.MaxKey())
    && (forall i, k :: 0 <= i < k < |j| ==> j[i].key != j[k].key)
  }

  ghost predicate StoreOk<T>(l: Layout, s: Store<T>) {
    l.Valid() && HasPages(l, s) && JournalOk(l, s.journal)
  }

  /** lookup_journal_in_cursum without allocation: the position of key, or the journal length. */
  function JournalIndex<T>(j: seq<JournalEntry<T>>, key: nat): (i: nat)
    ensures i <= |j|
    ensures i < |j| ==> j[i].key == key
    ensures i == |j| ==> forall k :: 0 <= k < |j| ==> j[k].key != key
  {
    if j == [] then 0 else if j[0].key == key then 0 else 1 + JournalIndex(j[1..], key)
  }

  lemma BlockInRange(l: Layout, key: nat)
    requires l.Valid() && key < l.MaxKey()
    ensures l.BlockOf(key) < l.blocks
  {
    assert key == (key / l.perBlock) * l.perBlock + key % l.perBlock;
    MulLe(l.blocks, key / l.perBlock, l.perBlock);
  }

  /** What the journal and the current blocks say about key. */
  ghost function Stored<T>(l: Layout, s: Store<T>, key: nat): T
    requires StoreOk(l, s) && key < l.MaxKey()
  {
    BlockInRange(l, key);
    var i := JournalIndex(s.journal, key);
    if i < |s.journal| then s.journal[i].value else InPage(l, s, key)
  }

  ghost function InPage<T>(l: Layout, s: Store<T>, key: nat): T
    requires l.Valid() && HasPages(l, s) && key < l.MaxKey()
  {
    BlockInRange(l, key);
    s.pages[CurAddr(l, s, l.BlockOf(key))][key % l.perBlock]
  }

  // ----- updates of the store -----

  /** Writing the journal slot of key: an existing slot, or a new one at the end. */
  function JournalPut<T>(j: seq<JournalEntry<T>>, key: nat, value: T): (r: seq<JournalEntry<T>>) {
    var i := JournalIndex(j, key);
    if i < |j| then j[i := JournalEntry(key, value)] else j + [JournalEntry(key, value)]
  }

  lemma JournalUnique<T>(j: seq<JournalEntry<T>>, key: nat, i: nat)
    requires i < |j| && j[i].key == key && forall a, b :: 0 <= a < b < |j| ==> j[a].key != j[b].key
    ensures JournalIndex(j, key) == i
  {
  }

  lemma {:induction false} JournalPutOk<T>(l: Layout, j: seq<JournalEntry<T>>, key: nat, value: T)
    requires JournalOk(l, j) && key < l.MaxKey() && (JournalIndex(j, key) < |j| || |j| < l.journalMax)
    ensures JournalOk(l, JournalPut(j, key, value))
    ensures JournalIndex(JournalPut(j, key, value), key) < |JournalPut(j, key, value)|
    ensures JournalPut(j, key, value)[JournalIndex(JournalPut(j, key, value), key)].value == value
    ensures forall n: nat :: n != key ==> SameSlot(j, JournalPut(j, key, value), n)
  {
    var r, i := JournalPut(j, key, value), JournalIndex(j, key);
    assert r[i] == JournalEntry(key, value);
    JournalUnique(r, key, i);
    forall n: nat | n != key ensures SameSlot(j, r, n) {
      var k := JournalIndex(j, n);
      if k < |j| {
        assert r[k] == j[k];
        JournalUnique(r, n, k);
      } else {
        assert forall k' :: 0 <= k' < |r| ==> r[k'].key != n;
      }
    }
  }

  /** Two journals agree on n: both miss it, or both hold the same entry. */
  ghost predicate SameSlot<T>(j: seq<JournalEntry<T>>, r: seq<JournalEntry<T>>, n: nat) {
    var a, b := JournalIndex(j, n), JournalIndex(r, n);
    (a < |j| <==> b < |r|) && (a < |j| ==> j[a].value == r[b].value)
  }

  lemma {:induction false} JournalPutStored<T>(l: Layout, s: Store<T>, key: nat, value: T)
    requires StoreOk(l, s) && key < l.MaxKey()
    requires JournalIndex(s.journal, key) < |s.journal| || |s.journal| < l.journalMax
    ensures StoreOk(l, s.(journal := JournalPut(s.journal, key, value)))
    ensures forall n: nat :: n < l.MaxKey() ==>
      Stored(l, s.(journal := JournalPut(s.journal, key, value)), n) == if n == key then value else Stored(l, s, n)
  {
    JournalPutOk(l, s.journal, key, value);
    var r := s.(journal := JournalPut(s.journal, key, value));
    forall n: nat | n < l.MaxKey() ensures Stored(l, r, n) == if n == key then value else Stored(l, s, n) {
      if n != key { assert SameSlot(s.journal, r.journal, n); }
    }
  }

  /** Writing an entry into the current copy of its block. */
  function PagePut<T>(l: Layout, s: Store<T>, key: nat, value: T): Store<T>
    requires 0 < l.perBlock && 0 < l.blocksPerSeg && l.BlockOf(key) < |s.bitmap|
    requires CurAddr(l, s, l.BlockOf(key)) in s.pages && |s.pages[CurAddr(l, s, l.BlockOf(key))]| == l.perBlock
  {
    var a := CurAddr(l, s, l.BlockOf(key));
    s.(pages := s.pages[a := s.pages[a][key % l.perBlock := value]])
  }

  lemma {:induction false} SameSlotOfPage(l: Layout, n: nat, key: nat)
    requires l.Valid() && l.BlockOf(n) == l.BlockOf(key) && n % l.perBlock == key % l.perBlock
    ensures n == key
  {
    assert n == (n / l.perBlock) * l.perBlock + n % l.perBlock;
    assert key == (key / l.perBlock) * l.perBlock + key % l.perBlock;
  }

  lemma {:induction false} PagePutInPage<T>(l: Layout, s: Store<T>, key: nat, value: T, n: nat)
    requires StoreOk(l, s) && key < l.MaxKey() && n < l.MaxKey() && l.BlockOf(key) < l.blocks
    ensures HasPages(l, PagePut(l, s, key, value))
    ensures InPage(l, PagePut(l, s, key, value), n) == if n == key then value else InPage(l, s, n)
  {
    BlockInRange(l, n);
    CopiesDisjoint(l, l.BlockOf(key), s.bitmap[l.BlockOf(key)], l.BlockOf(n), s.bitmap[l.BlockOf(n)]);
    if l.BlockOf(n) == l.BlockOf(key) && n != key && n % l.perBlock == key % l.perBlock { SameSlotOfPage(l, n, key); }
  }

  lemma {:induction false} PagePutStored<T>(l: Layout, s: Store<T>, key: nat, value: T)
    requires StoreOk(l, s) && key < l.MaxKey() && JournalIndex(s.journal, key) == |s.journal|
    ensures l.BlockOf(key) < l.blocks && StoreOk(l, PagePut(l, s, key, value))
    ensures forall n: nat :: n < l.MaxKey() ==>
      Stored(l, PagePut(l, s, key, value), n) == if n == key then value else Stored(l, s, n)
  {
    BlockInRange(l, key);
    PagePutInPage(l, s, key, value, key);
    var r := PagePut(l, s, key, value);
    forall n: nat | n < l.MaxKey() ensures Stored(l, r, n) == if n == key then value else Stored(l, s, n) {
      PagePutInPage(l, s, key, value, n);
    }
  }

  /** get_next_nat_page and get_next_sit_page on a clean block: copy it to the other address and flip the version bit. */
  function NextPage<T>(l: Layout, s: Store<T>, b: nat): Store<T>
    requires 0 < l.blocksPerSeg && b < |s.bitmap| && CurAddr(l, s, b) in s.pages
  {
    var a := CurAddr(l, s, b);
    s.(pages := s.pages[NextAddr(l, a) := s.pages[a]], bitmap := s.bitmap[b := !s.bitmap[b]])
  }

  lemma {:induction false} NextPageInPage<T>(l: Layout, s: Store<T>, b: nat, n: nat)
    requires StoreOk(l, s) && b < l.blocks && n < l.MaxKey()
    ensures HasPages(l, NextPage(l, s, b))
    ensures InPage(l, NextPage(l, s, b), n) == InPage(l, s, n)
  {
    BlockInRange(l, n);
    NextIsTheOtherCopy(l, b, s.bitmap[b]);
    CopiesDisjoint(l, b, !s.bitmap[b], l.BlockOf(n), s.bitmap[l.BlockOf(n)]);
  }

  lemma {:induction false} NextPageStored<T>(l: Layout, s: Store<T>, b: nat)
    requires StoreOk(l, s) && b < l.blocks
    ensures StoreOk(l, NextPage(l, s, b))
    ensures forall n: nat :: n < l.MaxKey() ==> Stored(l, NextPage(l, s, b), n) == Stored(l, s, n)
  {
    NextIsTheOtherCopy(l, b, s.bitmap[b]);
    forall n: nat | n < l.MaxKey() ensures HasPages(l, NextPage(l, s, b)) && InPage(l, NextPage(l, s, b), n) == InPage(l, s, n) {
      NextPageInPage(l, s, b, n);
    }
    assert HasPages(l, NextPage(l, s, b));
  }

  // ----- which copy of a block is written -----

  /**
   * While a flush runs: `cp` are the version bits of the last checkpoint and `old_` its pages.  A
   * block is dirty iff its bit has flipped since, and the copies the checkpoint uses are intact.
   */
  ghost predicate Shadowed<T>(l: Layout, s: Store<T>, dirtyPages: set<int>, cp: seq<bool>, before: map<int, seq<T>>)
    requires l.Valid() && HasPages(l, s)
  {
    && |cp| == l.blocks
    && forall b: nat :: b < l.blocks ==> ShadowedAt(l, s, dirtyPages, cp, before, b)
  }

  ghost predicate ShadowedAt<T>(l: Layout, s: Store<T>, dirtyPages: set<int>, cp: seq<bool>,
                             before: map<int, seq<T>>, b: nat)
    requires l.Valid() && HasPages(l, s) && |cp| == l.blocks && b < l.blocks
  {
    && (CurAddr(l, s, b) in dirtyPages <==> s.bitmap[b] != cp[b])
    && CopyAddr(l, b, cp[b]) in before && s.pages[CopyAddr(l, b, cp[b])] == before[CopyAddr(l, b, cp[b])]
  }

  /** No page is waiting to be written: the state a checkpoint leaves. */
  ghost predicate AllClean(l: Layout, dirtyPages: set<int>)
    requires l.Valid()
  {
    forall b: nat, bit :: b < l.blocks ==> CopyAddr(l, b, bit) !in dirtyPages
  }

  lemma {:induction false} ShadowNext<T>(l: Layout, s: Store<T>, dirtyPages: set<int>, cp: seq<bool>,
                                      before: map<int, seq<T>>, b: nat)
    requires StoreOk(l, s) && Shadowed(l, s, dirtyPages, cp, before) && b < l.blocks
    requires CurAddr(l, s, b) !in dirtyPages
    ensures HasPages(l, NextPage(l, s, b))
    ensures Shadowed(l, NextPage(l, s, b), dirtyPages + {CopyAddr(l, b, !s.bitmap[b])}, cp, before)
  {
    NextPageStored(l, s, b);
    NextIsTheOtherCopy(l, b, s.bitmap[b]);
    var r, d := NextPage(l, s, b), dirtyPages + {CopyAddr(l, b, !s.bitmap[b])};
    assert ShadowedAt(l, s, dirtyPages, cp, before, b);
    forall i: nat | i < l.blocks ensures ShadowedAt(l, r, d, cp, before, i) {
      assert ShadowedAt(l, s, dirtyPages, cp, before, i);
      CopiesDisjoint(l, b, !s.bitmap[b], i, cp[i]);
      CopiesDisjoint(l, b, !s.bitmap[b], i, s.bitmap[i]);
    }
  }

  lemma {:induction false} ShadowPut<T>(l: Layout, s: Store<T>, dirtyPages: set<int>, cp: seq<bool>,
                                     before: map<int, seq<T>>, key: nat, value: T)
    requires StoreOk(l, s) && Shadowed(l, s, dirtyPages, cp, before) && l.BlockOf(key) < l.blocks
    requires CurAddr(l, s, l.BlockOf(key)) in dirtyPages
    ensures HasPages(l, PagePut(l, s, key, value))
    ensures Shadowed(l, PagePut(l, s, key, value), dirtyPages, cp, before)
  {
    var b := l.BlockOf(key);
    assert ShadowedAt(l, s, dirtyPages, cp, before, b);
    var r := PagePut(l, s, key, value);
    forall i: nat | i < l.blocks ensures HasPages(l, r) && ShadowedAt(l, r, dirtyPages, cp, before, i) {
      assert ShadowedAt(l, s, dirtyPages, cp, before, i);
      CopiesDisjoint(l, b, s.bitmap[b], i, cp[i]);
    }
  }

  lemma ShadowSame<T>(l: Layout, s: Store<T>, r: Store<T>, dirtyPages: set<int>, cp: seq<bool>, before: map<int, seq<T>>)
    requires l.Valid() && HasPages(l, s) && Shadowed(l, s, dirtyPages, cp, before)
    requires r.bitmap == s.bitmap && r.pages == s.pages
    ensures HasPages(l, r) && Shadowed(l, r, dirtyPages, cp, before)
  {
    forall b: nat | b < l.blocks ensures HasPages(l, r) && ShadowedAt(l, r, dirtyPages, cp, before, b) {
      assert ShadowedAt(l, s, dirtyPages, cp, before, b);
    }
  }

  lemma ShadowStart<T>(l: Layout, s: Store<T>, dirtyPages: set<int>)
    requires l.Valid() && HasPages(l, s) && AllClean(l, dirtyPages)
    ensures Shadowed(l, s, dirtyPages, s.bitmap, s.pages)
  {
    forall b: nat | b < l.blocks ensures ShadowedAt(l, s, dirtyPages, s.bitmap, s.pages, b) {
      assert CopyAddr(l, b, s.bitmap[b]) !in dirtyPages;
    }
  }

  lemma ShadowedCopies<T>(l: Layout, s: Store<T>, dirtyPages: set<int>, cp: seq<bool>, before: map<int, seq<T>>)
    requires l.Valid() && HasPages(l, s) && Shadowed(l, s, dirtyPages, cp, before)
    ensures forall b: nat :: b < l.blocks ==>
      CopyAddr(l, b, cp[b]) in before && s.pages[CopyAddr(l, b, cp[b])] == before[CopyAddr(l, b, cp[b])]
  {
    forall b: nat | b < l.blocks ensures CopyAddr(l, b, cp[b]) in before
      && s.pages[CopyAddr(l, b, cp[b])] == before[CopyAddr(l, b, cp[b])]
    {
      assert ShadowedAt(l, s, dirtyPages, cp, before, b);
    }
  }
}
