/**
 * The NAT manager (node.c): a cache with clean and dirty lists over the journal and the paired NAT
 * blocks.  Whatever is cached, evicted, spilled or flushed, the three layers stand for one map.
 */
module NatManager {
  import opened Geometry
  import opened TableLayout
  import opened Lists

  /** f2fs_nat_entry. */
  datatype NodeInfo = NodeInfo(ino: nat, blk: int, version: nat)

  /** nat_entry. */
  datatype CacheEntry = CacheEntry(ni: NodeInfo, checkpointed: bool)

  datatype Nat = Nat(cache: map<nat, CacheEntry>, clean: seq<nat>, dirty: seq<nat>, store: Store<NodeInfo>)

  // ----- lists -----

  /** Every cached nid is on exactly one of the two lists, once. */
  ghost predicate ListsOk(keys: set<nat>, clean: seq<nat>, dirty: seq<nat>) {
    && NoDup(clean) && NoDup(dirty)
    && (forall n :: n in clean ==> n !in dirty)
    && (forall n :: n in keys <==> n in clean || n in dirty)
  }

  // ----- meaning -----

  ghost predicate NatOk(l: Layout, t: Nat) {
    && StoreOk(l, t.store)
    && (forall n :: n in t.cache ==> n < l.MaxKey())
    && ListsOk(t.cache.Keys, t.clean, t.dirty)
    && (forall n :: n in t.clean ==> t.cache[n].ni == Stored(l, t.store, n))
  }

  ghost function InfoOf(l: Layout, t: Nat, n: nat): NodeInfo
    requires NatOk(l, t) && n < l.MaxKey()
  {
    if n in t.cache then t.cache[n].ni else Stored(l, t.store, n)
  }

  /** The one map the three layers stand for. */
  ghost function View(l: Layout, t: Nat): map<nat, NodeInfo>
    requires NatOk(l, t)
  {
    map n: nat | n < l.MaxKey() :: InfoOf(l, t, n)
  }

  /** What survives a crash right after the tables are written: journal over NAT blocks. */
  ghost function Durable(l: Layout, s: Store<NodeInfo>): map<nat, NodeInfo>
    requires StoreOk(l, s)
  {
    map n: nat | n < l.MaxKey() :: Stored(l, s, n)
  }

  // ----- steps on values -----

  /** cache_nat_entry on a miss: a clean copy of what is stored. */
  ghost function Fill(l: Layout, t: Nat, n: nat): Nat
    requires NatOk(l, t) && n < l.MaxKey()
  {
    t.(cache := t.cache[n := CacheEntry(Stored(l, t.store, n), true)], clean := t.clean + [n])
  }

  lemma FillOk(l: Layout, t: Nat, n: nat)
    requires NatOk(l, t) && n < l.MaxKey() && n !in t.cache
    ensures NatOk(l, Fill(l, t, n)) && View(l, Fill(l, t, n)) == View(l, t)
  {
    assert n !in t.clean && n !in t.dirty;
    assert ListsOk(t.cache.Keys + {n}, t.clean + [n], t.dirty);
    assert Fill(l, t, n).cache.Keys == t.cache.Keys + {n};
  }

  /** Evicting a clean entry. */
  ghost function Evict(t: Nat, n: nat): Nat {
    t.(cache := t.cache - {n}, clean := Without(t.clean, n))
  }

  lemma EvictOk(l: Layout, t: Nat, n: nat)
    requires NatOk(l, t) && n in t.clean
    ensures NatOk(l, Evict(t, n)) && View(l, Evict(t, n)) == View(l, t)
  {
    WithoutOk(t.clean, n);
  }

  /** Putting an entry on the dirty list with new contents; the NAT view changes at that nid only. */
  ghost function PutDirty(t: Nat, n: nat, e: CacheEntry): Nat {
    t.(cache := t.cache[n := e], clean := Without(t.clean, n), dirty := Without(t.dirty, n) + [n])
  }

  lemma PutDirtyOk(l: Layout, t: Nat, n: nat, e: CacheEntry)
    requires NatOk(l, t) && n < l.MaxKey()
    ensures NatOk(l, PutDirty(t, n, e)) && View(l, PutDirty(t, n, e)) == View(l, t)[n := e.ni]
    ensures forall k :: k in PutDirty(t, n, e).dirty <==> k in t.dirty || k == n
    ensures forall k :: k in PutDirty(t, n, e).clean <==> k in t.clean && k != n
  {
    DirtyLists(t.cache.Keys, t.clean, t.dirty, n);
    assert PutDirty(t, n, e).cache.Keys == t.cache.Keys + {n};
  }

  /** Moving n to the end of the dirty list, from wherever it is. */
  lemma DirtyLists(keys: set<nat>, clean: seq<nat>, dirty: seq<nat>, n: nat)
    requires ListsOk(keys, clean, dirty)
    ensures ListsOk(keys + {n}, Without(clean, n), Without(dirty, n) + [n])
    ensures forall k :: k in Without(dirty, n) + [n] <==> k in dirty || k == n
    ensures forall k :: k in Without(clean, n) <==> k in clean && k != n
  {
    WithoutOk(clean, n);
    WithoutOk(dirty, n);
    AppendNoDup(Without(dirty, n), n);
  }

  lemma AppendNoDup(s: seq<nat>, n: nat)
    requires NoDup(s) && n !in s
    ensures NoDup(s + [n])
  {
  }

  /** Once a dirty entry has been stored it may stay cached as clean, or be dropped. */
  ghost function Settle(t: Nat, s: Store<NodeInfo>, n: nat, keep: bool): Nat
    requires n in t.cache
  {
    Nat(if keep then t.cache[n := t.cache[n].(checkpointed := true)] else t.cache - {n},
        if keep then Without(t.clean, n) + [n] else t.clean, Without(t.dirty, n), s)
  }

  lemma SettleOk(l: Layout, t: Nat, s: Store<NodeInfo>, n: nat, keep: bool)
    requires NatOk(l, t) && n in t.dirty && StoreOk(l, s)
    requires forall k: nat :: k < l.MaxKey() ==>
      Stored(l, s, k) == if k == n then t.cache[n].ni else Stored(l, t.store, k)
    ensures NatOk(l, Settle(t, s, n, keep)) && View(l, Settle(t, s, n, keep)) == View(l, t)
  {
    WithoutOk(t.dirty, n);
    WithoutOk(t.clean, n);
    var r := Settle(t, s, n, keep);
    assert r.cache.Keys == if keep then t.cache.Keys else t.cache.Keys - {n};
  }

  /** After a flush only NEW_ADDR entries are dirty, and the durable tables show everything else. */
  lemma FlushedIsDurable(l: Layout, t: Nat)
    requires NatOk(l, t) && forall n :: n in t.dirty ==> t.cache[n].ni.blk == NEW_ADDR
    ensures forall n: nat :: n < l.MaxKey() && View(l, t)[n].blk != NEW_ADDR ==> Durable(l, t.store)[n] == View(l, t)[n]
    ensures (forall n: nat :: n < l.MaxKey() ==> View(l, t)[n].blk != NEW_ADDR) ==> Durable(l, t.store) == View(l, t)
  {
  }

  /** nm_info with the NAT pages of the meta mapping and the NAT journal of the hot data log. */
  class NodeManager {
    const l: Layout
    const writeOutThreshold: nat
    var cache: map<nat, CacheEntry>
    var natEntries: seq<nat>
    var dirtyNatEntries: seq<nat>
    var journal: seq<JournalEntry<NodeInfo>>
    var natBitmap: seq<bool>
    var pages: map<int, seq<NodeInfo>>
    var dirtyPages: set<int>

    ghost function T(): Nat
      reads this
    {
      Nat(cache, natEntries, dirtyNatEntries, S())
    }

    ghost function S(): Store<NodeInfo>
      reads this`journal, this`natBitmap, this`pages
    {
      Store(journal, natBitmap, pages)
    }

    /** lookup_journal_in_cursum(NAT_JOURNAL, nid, 0). */
    method LookupJournal(nid: nat) returns (i: nat)
      ensures i == JournalIndex(journal, nid)
    {
      i := 0;
      while i < |journal|
        invariant i <= |journal| && JournalIndex(journal, nid) == i + JournalIndex(journal[i..], nid)
      {
        if journal[i].key == nid { return; }
        assert journal[i..][1..] == journal[i + 1..];
        i := i + 1;
      }
    }

    /** get_node_info: cache, then journal, then NAT block; a miss leaves a clean copy behind. */
    method GetNodeInfo(nid: nat) returns (ni: NodeInfo)
      requires NatOk(l, T()) && nid < l.MaxKey()
      modifies this`cache, this`natEntries
      ensures NatOk(l, T()) && View(l, T()) == old(View(l, T())) && ni == View(l, T())[nid]
      ensures nid in cache && cache[nid].ni == ni
    {
      if nid in cache {
        ni := cache[nid].ni;
        return;
      }
      FillOk(l, T(), nid);
      BlockInRange(l, nid);
      var i := LookupJournal(nid);
      if i < |journal| {
        ni := journal[i].value;
      } else {
        ni := pages[CopyAddr(l, l.BlockOf(nid), natBitmap[l.BlockOf(nid)])][nid % l.perBlock];
      }
      cache := cache[nid := CacheEntry(ni, true)];
      natEntries := natEntries + [nid];
    }

    /** The cache entry that set_node_addr leaves, field by field. */
    method NewEntry(nid: nat, ni: NodeInfo, blk: int) returns (e: CacheEntry)
      ensures var was := if nid in cache && blk != NEW_ADDR then cache[nid].ni else ni;
        && e.ni.blk == blk && e.ni.ino == was.ino
        && e.ni.version == if blk == NULL_ADDR && was.blk != NEW_ADDR then (was.version + 1) % 256 else was.version
      ensures e.checkpointed <==> blk != NEW_ADDR && (nid in cache ==> cache[nid].checkpointed)
    {
      if nid !in cache {
        e := CacheEntry(ni, true);
      } else {
        e := cache[nid];
        if blk == NEW_ADDR {
          e := e.(ni := ni);
        }
      }
      if blk == NEW_ADDR {
        e := e.(checkpointed := false);
      }
      if e.ni.blk != NEW_ADDR && blk == NULL_ADDR {
        e := e.(ni := e.ni.(version := (e.ni.version + 1) % 256));
      }
      e := e.(ni := e.ni.(blk := blk));
    }

    /** __set_nat_cache_dirty, with the entry itself. */
    method MakeDirty(nid: nat, e: CacheEntry)
      requires NatOk(l, T()) && nid < l.MaxKey()
      modifies this`cache, this`natEntries, this`dirtyNatEntries
      ensures NatOk(l, T()) && View(l, T()) == old(View(l, T()))[nid := e.ni]
      ensures nid in cache && cache[nid] == e
      ensures forall n :: n in dirtyNatEntries <==> n in old(dirtyNatEntries) || n == nid
    {
      PutDirtyOk(l, T(), nid, e);
      cache := cache[nid := e];
      natEntries := Without(natEntries, nid);
      dirtyNatEntries := Without(dirtyNatEntries, nid) + [nid];
    }

    /**
     * set_node_addr.  The BUG_ONs are the precondition: the caller's copy carries the current
     * address, and the address does not go from NULL to NULL, from NEW to NEW, or from a real
     * address to NEW.  Exactly one nid changes: it has the address given; its owner is the caller's for a
     * new node and otherwise the one known; its version is the old one, plus 1 in eight bits exactly when a
     * node that is not NEW_ADDR is removed.
     */
    method SetNodeAddr(nid: nat, ni: NodeInfo, blk: int)
      requires NatOk(l, T()) && nid < l.MaxKey()
      requires nid in cache && blk != NEW_ADDR ==> cache[nid].ni.blk == ni.blk
      requires nid in cache && blk == NEW_ADDR ==> ni.blk == NULL_ADDR
      requires !(ni.blk == NULL_ADDR && blk == NULL_ADDR) && (nid !in cache ==> ni.blk != NEW_ADDR)
      requires blk == NEW_ADDR ==> ni.blk == NULL_ADDR
      modifies this`cache, this`natEntries, this`dirtyNatEntries
      ensures NatOk(l, T()) && nid in cache && nid in dirtyNatEntries
      ensures View(l, T()) == old(View(l, T()))[nid := cache[nid].ni]
      ensures View(l, T())[nid].blk == blk
      ensures View(l, T())[nid].ino == if nid in old(cache) && blk != NEW_ADDR then old(View(l, T()))[nid].ino else ni.ino
      ensures var version := if nid in old(cache) && blk != NEW_ADDR then old(View(l, T()))[nid].version else ni.version;
        View(l, T())[nid].version == if blk == NULL_ADDR && ni.blk != NEW_ADDR then (version + 1) % 256 else version
    {
      var e := NewEntry(nid, ni, blk);
      MakeDirty(nid, e);
    }

    /** try_to_free_nats: clean entries go, oldest first; nothing changes for lookups. */
    method TryToFreeNats(nrShrink: nat) returns (left: nat)
      requires NatOk(l, T())
      modifies this`cache, this`natEntries
      ensures NatOk(l, T()) && View(l, T()) == old(View(l, T()))
      ensures forall n :: n in cache ==> n in old(cache) && cache[n] == old(cache)[n]
      ensures |old(cache)| <= writeOutThreshold ==> left == 0 && natEntries == old(natEntries)
      ensures |old(cache)| > writeOutThreshold ==> Shrunk(old(natEntries), natEntries, nrShrink, left) && (left == 0 || natEntries == [])
    {
      left := nrShrink;
      if |cache| <= writeOutThreshold { return 0; }
      while left != 0 && natEntries != []
        invariant NatOk(l, T()) && View(l, T()) == old(View(l, T()))
        invariant Shrunk(old(natEntries), natEntries, nrShrink, left)
        invariant forall n :: n in cache ==> n in old(cache) && cache[n] == old(cache)[n]
        decreases left
      {
        var n := natEntries[0];
        EvictOk(l, T(), n);
        cache := cache - {n};
        natEntries := natEntries[1..];
        left := left - 1;
      }
    }

    /** One journal entry moves to the dirty list, from the cache when it is there already. */
    method DirtyJournalled(i: nat)
      requires NatOk(l, T()) && i < |journal|
      modifies this`cache, this`natEntries, this`dirtyNatEntries
      ensures NatOk(l, T()) && View(l, T()) == old(View(l, T()))
      ensures forall n :: n in dirtyNatEntries <==> n in old(dirtyNatEntries) || n == journal[i].key
    {
      var nid := journal[i].key;
      var e := if nid in cache then cache[nid] else CacheEntry(journal[i].value, false);
      JournalledView(l, T(), i, e);
      MakeDirty(nid, e);
    }

    /** The loop of flush_nats_in_journal. */
    method DirtyJournal()
      requires NatOk(l, T())
      modifies this`cache, this`natEntries, this`dirtyNatEntries
      ensures NatOk(l, T()) && View(l, T()) == old(View(l, T()))
      ensures AllDirty(journal)
    {
      ghost var view := View(l, T());
      var entries := journal;
      var i := 0;
      while i < |entries|
        invariant i <= |entries| && journal == entries && NatOk(l, T()) && View(l, T()) == view
        invariant AllDirty(entries[..i])
      {
        assert entries[..i + 1] == entries[..i] + [entries[i]];
        DirtyJournalled(i);
        i := i + 1;
      }
      assert entries[..i] == entries;
    }

    ghost predicate AllDirty(entries: seq<JournalEntry<NodeInfo>>)
      reads this`dirtyNatEntries
    {
      forall e :: e in entries ==> e.key in dirtyNatEntries
    }

    /** flush_nats_in_journal: a full journal is emptied into dirty cache entries. */
    method FlushNatsInJournal() returns (flushed: bool)
      requires NatOk(l, T())
      modifies this`cache, this`natEntries, this`dirtyNatEntries, this`journal
      ensures NatOk(l, T()) && View(l, T()) == old(View(l, T()))
      ensures flushed <==> |old(journal)| >= l.journalMax
      ensures flushed ==> journal == []
      ensures !flushed ==> T() == old(T())
    {
      if |journal| < l.journalMax { return false; }
      DirtyJournal();
      EmptyJournalOk(l, T());
      journal := [];
      flushed := true;
    }

    /** get_next_nat_page: the copy to be written in this checkpoint, made on first use. */
    method GetNextNatPage(b: nat, ghost cp: seq<bool>, ghost before: map<int, seq<NodeInfo>>)
      requires StoreOk(l, S()) && b < l.blocks && Shadowed(l, S(), dirtyPages, cp, before)
      modifies this`natBitmap, this`pages, this`dirtyPages
      ensures StoreOk(l, S()) && Shadowed(l, S(), dirtyPages, cp, before)
      ensures CurAddr(l, S(), b) in dirtyPages
      ensures Durable(l, S()) == old(Durable(l, S())) && journal == old(journal)
    {
      var src := CopyAddr(l, b, natBitmap[b]);
      if src in dirtyPages { return; }
      ghost var s := S();
      ShadowNext(l, s, dirtyPages, cp, before, b);
      NextPageStored(l, s, b);
      NextIsTheOtherCopy(l, b, natBitmap[b]);
      var dst := NextAddr(l, src);
      pages := pages[dst := pages[src]];
      dirtyPages := dirtyPages + {dst};
      natBitmap := natBitmap[b := !natBitmap[b]];
      assert forall n: nat :: n < l.MaxKey() ==> Stored(l, NextPage(l, s, b), n) == Stored(l, s, n);
    }

    /** Where an entry goes during a flush: the journal while it has room, else its NAT block. */
    method StoreEntry(nid: nat, ne: NodeInfo, toPage: bool, ghost cp: seq<bool>, ghost before: map<int, seq<NodeInfo>>)
      requires StoreOk(l, S()) && nid < l.MaxKey() && Shadowed(l, S(), dirtyPages, cp, before)
      requires toPage ==> journal == []
      modifies this`natBitmap, this`pages, this`dirtyPages, this`journal
      ensures StoreOk(l, S()) && Shadowed(l, S(), dirtyPages, cp, before)
      ensures Durable(l, S()) == old(Durable(l, S()))[nid := ne]
      ensures toPage ==> journal == []
      ensures var inJournal := !toPage && (JournalIndex(old(journal), nid) < |old(journal)| || |old(journal)| < l.journalMax);
        if inJournal then journal == JournalPut(old(journal), nid, ne) && pages == old(pages) && natBitmap == old(natBitmap)
        else journal == old(journal)
    {
      var i := LookupJournal(nid);
      if !toPage && (i < |journal| || |journal| < l.journalMax) {
        PutInJournal(i, nid, ne, cp, before);
      } else {
        BlockInRange(l, nid);
        GetNextNatPage(l.BlockOf(nid), cp, before);
        PutInPage(nid, ne, cp, before);
      }
    }

    method PutInJournal(i: nat, nid: nat, ne: NodeInfo, ghost cp: seq<bool>, ghost before: map<int, seq<NodeInfo>>)
      requires StoreOk(l, S()) && nid < l.MaxKey() && Shadowed(l, S(), dirtyPages, cp, before)
      requires i == JournalIndex(journal, nid) && (i < |journal| || |journal| < l.journalMax)
      modifies this`journal
      ensures StoreOk(l, S()) && Shadowed(l, S(), dirtyPages, cp, before)
      ensures Durable(l, S()) == old(Durable(l, S()))[nid := ne] && journal == JournalPut(old(journal), nid, ne)
    {
      ghost var s := S();
      JournalPutStored(l, s, nid, ne);
      if i < |journal| {
        journal := journal[i := JournalEntry(nid, ne)];
      } else {
        journal := journal + [JournalEntry(nid, ne)];
      }
      ghost var r := s.(journal := JournalPut(s.journal, nid, ne));
      assert S() == r;
      ShadowSame(l, s, r, dirtyPages, cp, before);
      assert forall n: nat :: n < l.MaxKey() ==> Stored(l, r, n) == if n == nid then ne else Stored(l, s, n);
    }

    method PutInPage(nid: nat, ne: NodeInfo, ghost cp: seq<bool>, ghost before: map<int, seq<NodeInfo>>)
      requires StoreOk(l, S()) && nid < l.MaxKey() && Shadowed(l, S(), dirtyPages, cp, before)
      requires l.BlockOf(nid) < l.blocks && CurAddr(l, S(), l.BlockOf(nid)) in dirtyPages
      requires JournalIndex(journal, nid) == |journal|
      modifies this`pages
      ensures StoreOk(l, S()) && Shadowed(l, S(), dirtyPages, cp, before)
      ensures Durable(l, S()) == old(Durable(l, S()))[nid := ne]
    {
      ghost var s := S();
      PagePutStored(l, s, nid, ne);
      ShadowPut(l, s, dirtyPages, cp, before, nid, ne);
      var b := l.BlockOf(nid);
      var a := CopyAddr(l, b, natBitmap[b]);
      pages := pages[a := pages[a][nid % l.perBlock := ne]];
      assert forall n: nat :: n < l.MaxKey() ==> Stored(l, PagePut(l, s, nid, ne), n) == if n == nid then ne else Stored(l, s, n);
    }

    /** The flush of one dirty entry; `accepts` says whether the free nid list takes a dead nid. */
    method FlushEntry(nid: nat, toPage: bool, accepts: set<nat>, ghost cp: seq<bool>, ghost before: map<int, seq<NodeInfo>>)
      requires NatOk(l, T()) && nid in dirtyNatEntries && Shadowed(l, S(), dirtyPages, cp, before)
      requires toPage ==> journal == []
      modifies this`natBitmap, this`pages, this`dirtyPages, this`journal, this`cache, this`natEntries, this`dirtyNatEntries
      ensures NatOk(l, T()) && View(l, T()) == old(View(l, T())) && Shadowed(l, S(), dirtyPages, cp, before)
      ensures dirtyNatEntries == Without(old(dirtyNatEntries), nid)
      ensures forall n :: n in dirtyNatEntries ==> n in old(cache) && cache[n] == old(cache)[n]
      ensures toPage ==> journal == []
    {
      ghost var t := T();
      var ne := cache[nid];
      StoreEntry(nid, ne.ni, toPage, cp, before);
      ghost var keep := !(ne.ni.blk == NULL_ADDR && nid !in accepts);
      StoredAfter(l, t, S(), nid, ne.ni);
      SettleOk(l, t, S(), nid, keep);
      WithoutOk(dirtyNatEntries, nid);
      dirtyNatEntries := Without(dirtyNatEntries, nid);
      if ne.ni.blk == NULL_ADDR && nid !in accepts {
        cache := cache - {nid};
      } else {
        cache := cache[nid := ne.(checkpointed := true)];
        natEntries := Without(natEntries, nid) + [nid];
      }
      assert T() == Settle(t, S(), nid, keep);
    }

    /**
     * flush_nat_entries.  Lookups are unaffected; afterwards the journal over the NAT blocks holds
     * every entry that is not NEW_ADDR; and no NAT block copy used by the last checkpoint is touched.
     */
    method FlushNatEntries(accepts: set<nat>)
      requires NatOk(l, T()) && AllClean(l, dirtyPages)
      modifies this
      ensures NatOk(l, T()) && View(l, T()) == old(View(l, T()))
      ensures forall n: nat :: n < l.MaxKey() && View(l, T())[n].blk != NEW_ADDR ==> Durable(l, S())[n] == View(l, T())[n]
      ensures (forall n: nat :: n < l.MaxKey() ==> View(l, T())[n].blk != NEW_ADDR) ==> Durable(l, S()) == View(l, T())
      ensures Shadowed(l, S(), dirtyPages, old(natBitmap), old(pages))
      ensures forall b: nat :: b < l.blocks ==>
        pages[CopyAddr(l, b, old(natBitmap)[b])] == old(pages)[CopyAddr(l, b, old(natBitmap)[b])]
    {
      ghost var cp, before := natBitmap, pages;
      var flushed := FlushNatsInJournal();
      ShadowStart(l, S(), dirtyPages);
      FlushDirty(flushed, accepts, cp, before);
      FlushedIsDurable(l, T());
      ShadowedCopies(l, S(), dirtyPages, cp, before);
      var _ := TryToFreeNats(if |cache| > writeOutThreshold then |cache| - writeOutThreshold else 0);
    }

    /** During that loop: nothing changes for lookups, and the dirty list is `kept`, passed over, then `rest`. */
    ghost predicate Flushing(v0: map<nat, NodeInfo>, flushed: bool, kept: seq<nat>, rest: seq<nat>,
                             cp: seq<bool>, before: map<int, seq<NodeInfo>>)
      reads this
    {
      && NatOk(l, T()) && View(l, T()) == v0 && Shadowed(l, S(), dirtyPages, cp, before)
      && (flushed ==> journal == []) && dirtyNatEntries == kept + rest && KeptNew(kept)
    }

    /** The loop over the dirty list: every entry but the NEW_ADDR ones is stored and settled. */
    method FlushDirty(flushed: bool, accepts: set<nat>, ghost cp: seq<bool>, ghost before: map<int, seq<NodeInfo>>)
      requires NatOk(l, T()) && Shadowed(l, S(), dirtyPages, cp, before) && (flushed ==> journal == [])
      modifies this
      ensures NatOk(l, T()) && View(l, T()) == old(View(l, T())) && Shadowed(l, S(), dirtyPages, cp, before)
      ensures forall n :: n in dirtyNatEntries ==> cache[n].ni.blk == NEW_ADDR
    {
      var work := dirtyNatEntries;
      ghost var kept: seq<nat> := [];
      assert dirtyNatEntries == kept + work;
      while work != []
        invariant Flushing(old(View(l, T())), flushed, kept, work, cp, before)
        decreases |work|
      {
        var nid, rest := work[0], work[1..];
        assert work == [nid] + rest;
        kept := FlushNext(nid, flushed, accepts, kept, rest, cp, before, old(View(l, T())));
        work := rest;
      }
      assert dirtyNatEntries == kept;
    }

    /** Entries passed over because they have no block yet. */
    ghost predicate KeptNew(kept: seq<nat>)
      reads this`cache
    {
      forall n :: n in kept ==> n in cache && cache[n].ni.blk == NEW_ADDR
    }

    /** One turn of that loop. */
    method FlushNext(nid: nat, flushed: bool, accepts: set<nat>, ghost kept: seq<nat>, ghost rest: seq<nat>,
                     ghost cp: seq<bool>, ghost before: map<int, seq<NodeInfo>>, ghost v0: map<nat, NodeInfo>)
      returns (ghost kept': seq<nat>)
      requires Flushing(v0, flushed, kept, [nid] + rest, cp, before)
      modifies this
      ensures Flushing(v0, flushed, kept', rest, cp, before)
    {
      assert dirtyNatEntries == kept + [nid] + rest;
      assert nid in dirtyNatEntries;
      if cache[nid].ni.blk == NEW_ADDR {
        return kept + [nid];
      }
      WithoutMiddle(kept, nid, rest);
      FlushEntry(nid, flushed, accepts, cp, before);
      kept' := kept;
    }

    /** write_checkpoint's part: flush, then the dirty meta pages reach the disk. */
    method Checkpoint(accepts: set<nat>)
      requires NatOk(l, T()) && AllClean(l, dirtyPages)
      modifies this
      ensures NatOk(l, T()) && View(l, T()) == old(View(l, T())) && AllClean(l, dirtyPages)
    {
      FlushNatEntries(accepts);
      dirtyPages := {};
    }

    /** One operation, its effect on the map and its answer. */
    method Do(op: NatOp) returns (a: seq<NodeInfo>)
      requires NatOk(l, T()) && AllClean(l, dirtyPages) && Allowed(l, View(l, T()), op)
      modifies this
      ensures NatOk(l, T()) && AllClean(l, dirtyPages)
      ensures View(l, T()) == After(old(View(l, T())), op) && a == Answer(old(View(l, T())), op)
    {
      a := [];
      match op {
        case Get(nid) =>
          var ni := GetNodeInfo(nid);
          a := [ni];
        case Set(nid, ino, blk) =>
          DoSet(nid, ino, blk);
        case Shrink(n) =>
          var _ := TryToFreeNats(n);
        case Flush(accepts) =>
          Checkpoint(accepts);
      }
    }

    method DoSet(nid: nat, ino: nat, blk: int)
      requires NatOk(l, T()) && Allowed(l, View(l, T()), Set(nid, ino, blk))
      modifies this`cache, this`natEntries, this`dirtyNatEntries
      ensures NatOk(l, T()) && View(l, T()) == Put(old(View(l, T())), nid, ino, blk)
    {
      var ni := GetNodeInfo(nid);
      SetLooked(nid, ino, blk, ni);
    }

    /** set_node_addr with what a lookup has just given. */
    method SetLooked(nid: nat, ino: nat, blk: int, ni: NodeInfo)
      requires NatOk(l, T()) && nid < l.MaxKey() && nid in cache && cache[nid].ni == ni
      requires !(ni.blk == NULL_ADDR && blk == NULL_ADDR) && (blk == NEW_ADDR ==> ni.blk == NULL_ADDR)
      modifies this`cache, this`natEntries, this`dirtyNatEntries
      ensures NatOk(l, T()) && View(l, T()) == Put(old(View(l, T())), nid, ino, blk)
    {
      ghost var v0 := View(l, T());
      SetNodeAddr(nid, if blk == NEW_ADDR then ni.(ino := ino) else ni, blk);
      PutIs(v0, nid, ino, blk, cache[nid].ni);
    }

    /**
     * Any sequence of lookups, updates, evictions and checkpoints answers its lookups exactly as a
     * plain map would.
     */
    method Run(ops: seq<NatOp>) returns (answers: seq<NodeInfo>)
      requires NatOk(l, T()) && AllClean(l, dirtyPages) && AllAllowed(l, View(l, T()), ops)
      modifies this
      ensures NatOk(l, T()) && AllClean(l, dirtyPages)
      ensures answers == Answers(old(View(l, T())), ops)
    {
      answers := [];
      ghost var v0 := View(l, T());
      var i: nat := 0;
      while i < |ops|
        invariant i <= |ops| && NatOk(l, T()) && AllClean(l, dirtyPages)
        invariant AllAllowed(l, View(l, T()), ops[i..])
        invariant Answers(v0, ops) == answers + Answers(View(l, T()), ops[i..])
      {
        NextOp(l, View(l, T()), ops, i);
        var a := Do(ops[i]);
        Regroup(answers, a, Answers(View(l, T()), ops[i + 1..]));
        answers := answers + a;
        i := i + 1;
      }
    }
  }

  /** A journalled nid reads as its journal entry unless it is cached. */
  lemma JournalledView(l: Layout, t: Nat, i: nat, e: CacheEntry)
    requires NatOk(l, t) && i < |t.store.journal|
    requires var nid := t.store.journal[i].key;
      e == if nid in t.cache then t.cache[nid] else CacheEntry(t.store.journal[i].value, false)
    ensures t.store.journal[i].key < l.MaxKey() && View(l, t)[t.store.journal[i].key := e.ni] == View(l, t)
  {
    JournalUnique(t.store.journal, t.store.journal[i].key, i);
  }

  /** The oldest entries are gone, as many as were asked for less those left to do. */
  predicate Shrunk(before: seq<nat>, after: seq<nat>, nrShrink: nat, left: nat) {
    left <= nrShrink && nrShrink - left <= |before| && after == before[nrShrink - left..]
  }

  lemma Regroup(a: seq<NodeInfo>, b: seq<NodeInfo>, c: seq<NodeInfo>)
    ensures a + (b + c) == (a + b) + c
  {
  }

  // ----- the reference: one map -----

  datatype NatOp = Get(nid: nat) | Set(nid: nat, ino: nat, blk: int) | Shrink(n: nat) | Flush(accepts: set<nat>)

  /** What the f2fs callers guarantee: see the BUG_ONs of set_node_addr. */
  ghost predicate Allowed(l: Layout, v: map<nat, NodeInfo>, op: NatOp) {
    match op
    case Get(nid) => nid < l.MaxKey()
    case Set(nid, _, blk) =>
      && nid < l.MaxKey() && nid in v && !(v[nid].blk == NULL_ADDR && blk == NULL_ADDR)
      && (blk == NEW_ADDR ==> v[nid].blk == NULL_ADDR)
    case _ => true
  }

  /** set_node_addr on the map: a new address, a new owner for a new node, a new version for a removed one. */
  ghost function Put(v: map<nat, NodeInfo>, nid: nat, ino: nat, blk: int): map<nat, NodeInfo>
    requires nid in v
  {
    var removed := blk == NULL_ADDR && v[nid].blk != NEW_ADDR;
    v[nid := NodeInfo(if blk == NEW_ADDR then ino else v[nid].ino, blk,
                      if removed then (v[nid].version + 1) % 256 else v[nid].version)]
  }

  lemma PutIs(v: map<nat, NodeInfo>, nid: nat, ino: nat, blk: int, e: NodeInfo)
    requires nid in v && e.blk == blk && e.ino == if blk == NEW_ADDR then ino else v[nid].ino
    requires e.version == if blk == NULL_ADDR && v[nid].blk != NEW_ADDR then (v[nid].version + 1) % 256 else v[nid].version
    ensures Put(v, nid, ino, blk) == v[nid := e]
  {
  }

  ghost function After(v: map<nat, NodeInfo>, op: NatOp): map<nat, NodeInfo> {
    match op
    case Set(nid, ino, blk) => if nid in v then Put(v, nid, ino, blk) else v
    case _ => v
  }

  ghost predicate AllAllowed(l: Layout, v: map<nat, NodeInfo>, ops: seq<NatOp>) {
    ops == [] || (Allowed(l, v, ops[0]) && AllAllowed(l, After(v, ops[0]), ops[1..]))
  }

  ghost function Answer(v: map<nat, NodeInfo>, op: NatOp): seq<NodeInfo> {
    if op.Get? && op.nid in v then [v[op.nid]] else []
  }

  ghost function Answers(v: map<nat, NodeInfo>, ops: seq<NatOp>): seq<NodeInfo> {
    if ops == [] then [] else
    Answer(v, ops[0]) + Answers(After(v, ops[0]), ops[1..])
  }

  /** The map after a run. */
  ghost function AfterAll(v: map<nat, NodeInfo>, ops: seq<NatOp>): map<nat, NodeInfo> {
    if ops == [] then v else AfterAll(After(v, ops[0]), ops[1..])
  }

  predicate Sets(op: NatOp, nid: nat) { op.Set? && op.nid == nid }

  lemma {:induction false} AfterSplit(v: map<nat, NodeInfo>, ops: seq<NatOp>, i: nat)
    requires i < |ops|
    ensures AfterAll(v, ops) == AfterAll(After(AfterAll(v, ops[..i]), ops[i]), ops[i + 1..])
    ensures v.Keys == AfterAll(v, ops[..i]).Keys
  {
    if i > 0 {
      AfterSplit(After(v, ops[0]), ops[1..], i - 1);
      assert ops[1..][..i - 1] == ops[..i][1..] && ops[1..][i..] == ops[i + 1..];
    }
  }

  /** Operations on other nids leave an entry alone; only a new node changes its owner. */
  lemma {:induction false} AfterOthers(v: map<nat, NodeInfo>, ops: seq<NatOp>, nid: nat)
    requires nid in v
    ensures nid in AfterAll(v, ops)
    ensures (forall k :: 0 <= k < |ops| ==> !Sets(ops[k], nid)) ==> AfterAll(v, ops)[nid] == v[nid]
    ensures (forall k :: 0 <= k < |ops| ==> !(Sets(ops[k], nid) && ops[k].blk == NEW_ADDR)) ==>
      AfterAll(v, ops)[nid].ino == v[nid].ino
  {
    if ops != [] {
      AfterOthers(After(v, ops[0]), ops[1..], nid);
      assert forall k :: 0 <= k < |ops| - 1 ==> ops[1..][k] == ops[k + 1];
      assert nid in After(v, ops[0]) && (!Sets(ops[0], nid) ==> After(v, ops[0])[nid] == v[nid]);
    }
  }

  /** A lookup at the end of a run answers with the entry of the map after it. */
  lemma {:induction false} LastAnswer(v: map<nat, NodeInfo>, ops: seq<NatOp>, nid: nat)
    requires nid in v
    ensures nid in AfterAll(v, ops) && Answers(v, ops + [Get(nid)]) == Answers(v, ops) + [AfterAll(v, ops)[nid]]
  {
    AfterOthers(v, ops, nid);
    var all := ops + [Get(nid)];
    if ops == [] {
      assert all[1..] == [];
    } else {
      assert all[0] == ops[0] && all[1..] == ops[1..] + [Get(nid)];
      LastAnswer(After(v, ops[0]), ops[1..], nid);
    }
  }

  /** So a lookup answers with the address set last for its nid, and with the owner given when the node was new last. */
  lemma {:induction false} LastAddressAnswers(v: map<nat, NodeInfo>, ops: seq<NatOp>, nid: nat, i: nat)
    requires nid in v && i < |ops| && Sets(ops[i], nid)
    ensures nid in AfterAll(v, ops) && Answers(v, ops + [Get(nid)]) == Answers(v, ops) + [AfterAll(v, ops)[nid]]
    ensures (forall k :: i < k < |ops| ==> !Sets(ops[k], nid)) ==> AfterAll(v, ops)[nid].blk == ops[i].blk
    ensures ops[i].blk == NEW_ADDR && (forall k :: i < k < |ops| ==> !(Sets(ops[k], nid) && ops[k].blk == NEW_ADDR)) ==>
      AfterAll(v, ops)[nid].ino == ops[i].ino
  {
    LastAnswer(v, ops, nid);
    AfterSplit(v, ops, i);
    var rest := ops[i + 1..];
    assert forall k :: 0 <= k < |rest| ==> rest[k] == ops[i + 1 + k];
    AfterOthers(After(AfterAll(v, ops[..i]), ops[i]), rest, nid);
  }

  lemma {:induction false} WithoutMiddle(a: seq<nat>, n: nat, b: seq<nat>)
    requires NoDup(a + [n] + b)
    ensures Without(a + [n] + b, n) == a + b
  {
    if a == [] {
      assert [] + [n] + b == [n] + b;
    } else {
      var s := a + [n] + b;
      assert s[0] != s[|a|];
      assert s[1..] == a[1..] + [n] + b;
      WithoutMiddle(a[1..], n, b);
      assert [a[0]] + (a[1..] + b) == a + b;
    }
  }

  lemma StoredAfter(l: Layout, t: Nat, s: Store<NodeInfo>, nid: nat, ne: NodeInfo)
    requires NatOk(l, t) && StoreOk(l, s) && nid < l.MaxKey() && Durable(l, s) == Durable(l, t.store)[nid := ne]
    ensures forall k: nat :: k < l.MaxKey() ==> Stored(l, s, k) == if k == nid then ne else Stored(l, t.store, k)
  {
    forall k: nat | k < l.MaxKey() ensures Stored(l, s, k) == if k == nid then ne else Stored(l, t.store, k) {
      assert Durable(l, s)[k] == Stored(l, s, k) && Durable(l, t.store)[k] == Stored(l, t.store, k);
    }
  }

  lemma NextOp(l: Layout, v: map<nat, NodeInfo>, ops: seq<NatOp>, i: nat)
    requires i < |ops|
    ensures AllAllowed(l, v, ops[i..]) ==> Allowed(l, v, ops[i]) && AllAllowed(l, After(v, ops[i]), ops[i + 1..])
    ensures Answers(v, ops[i..]) == Answer(v, ops[i]) + Answers(After(v, ops[i]), ops[i + 1..])
  {
    assert ops[i..][0] == ops[i] && ops[i..][1..] == ops[i + 1..];
  }

  /** Emptying the journal is invisible once every journalled nid is cached dirty. */
  lemma EmptyJournalOk(l: Layout, t: Nat)
    requires NatOk(l, t) && forall k :: 0 <= k < |t.store.journal| ==> t.store.journal[k].key in t.dirty
    ensures NatOk(l, t.(store := t.store.(journal := [])))
    ensures View(l, t.(store := t.store.(journal := []))) == View(l, t)
  {
    var r := t.(store := t.store.(journal := []));
    forall n: nat | n < l.MaxKey() && n !in t.dirty ensures Stored(l, r.store, n) == Stored(l, t.store, n) {
      assert JournalIndex(t.store.journal, n) == |t.store.journal|;
    }
  }
}
