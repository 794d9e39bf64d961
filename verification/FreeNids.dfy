/** The free-id list as the node manager keeps it (node.c): loops over the list, the NAT pages and the journal. */
module FreeNids {
  import opened Geometry
  import opened FreeNidPool
  import opened FreeNidRuns
  import TableLayout

  class NmInfo {
    const room: nat
    const perBlock: nat
    const maxNid: nat
    const scanPages: nat
    var list: seq<Entry>
    var fcnt: int
    var nextScanNid: nat
    var tables: Tables

    function P(): Pool
      reads this`list, this`fcnt
    {
      Pool(list, fcnt)
    }

    /** The list, its counter and the tables, seen by the protocol while nothing else runs. */
    ghost function St(phase: Phase): State
      reads this`list, this`fcnt, this`tables
    {
      State(P(), tables, phase, Nothing)
    }

    /** `room` is twice MAX_FREE_NIDS, `scanPages` is FREE_NID_PAGES. */
    constructor (room: nat, perBlock: nat, maxNid: nat, scanPages: nat, tables: Tables, nextFreeNid: nat)
      requires 0 < perBlock && nextFreeNid < maxNid && JournalOk(tables.journal)
      ensures Good(St(Idle)) && list == [] && this.tables == tables
      ensures this.perBlock == perBlock && this.maxNid == maxNid && this.room == room && nextScanNid == nextFreeNid
      ensures this.scanPages == scanPages && fcnt == 0
    {
      this.room, this.perBlock, this.maxNid, this.scanPages := room, perBlock, maxNid, scanPages;
      list, fcnt, nextScanNid, this.tables := [], 0, nextFreeNid, tables;
    }

    /** __lookup_free_nid_list. */
    method LookupFreeNid(n: nat) returns (i: nat)
      ensures i == Find(list, n)
    {
      i := 0;
      while i < |list|
        invariant i <= |list| && forall k :: 0 <= k < i ==> list[k].nid != n
      {
        if list[i].nid == n { return; }
        i := i + 1;
      }
    }

    /** add_free_nid: 1 for a new entry, 0 for none, -1 when the list is long enough. */
    method AddFreeNid(n: nat, build: bool) returns (r: int)
      requires PoolOk(P())
      modifies this`list, this`fcnt
      ensures P() == if build && CachedLive(tables, n) then old(P()) else Inserted(old(P()), room, n)
      ensures r < 0 <==> old(fcnt) > room
      ensures r == 1 <==> StatusOf(old(P()), n) == Absent && StatusOf(P(), n) == New
    {
      FindStatus(P(), n);
      InsertedOk(P(), room, n);
      if fcnt > room { return -1; }
      if n == 0 { return 0; }
      if build && n in tables.cache && tables.cache[n] != NULL_ADDR { return 0; }
      var i := LookupFreeNid(n);
      if i < |list| { return 0; }
      list, fcnt := list + [Entry(n, true)], fcnt + 1;
      r := 1;
    }

    /** remove_free_nid. */
    method RemoveFreeNid(n: nat)
      modifies this`list, this`fcnt
      ensures P() == Removed(old(P()), n)
    {
      var i := LookupFreeNid(n);
      if i < |list| && list[i].isNew {
        list, fcnt := Without(list, i), fcnt - 1;
      }
    }

    /** The section of alloc_nid under the list lock: an id is given out exactly when fcnt says there is one. */
    method TakeNid(onBuild: bool) returns (taken: bool, nid: nat)
      requires PoolOk(P())
      modifies this`list, this`fcnt
      ensures taken <==> old(fcnt) != 0 && !onBuild
      ensures taken ==> FirstNew(old(list)) < |old(list)| && P() == Taken(old(P())) && nid == old(list)[FirstNew(old(list))].nid
      ensures taken ==> PoolOk(P()) && StatusOf(old(P()), nid) == New && Becomes(old(P()), P(), nid, Alloc)
      ensures !taken ==> P() == old(P())
    {
      taken, nid := false, 0;
      if fcnt == 0 || onBuild { return; }
      TakenOk(P());
      var i := 0;
      while !list[i].isNew
        invariant i <= FirstNew(list)
        decreases FirstNew(list) - i
      {
        i := i + 1;
      }
      nid := list[i].nid;
      list, fcnt := list[i := Entry(nid, false)], fcnt - 1;
      taken := true;
    }

    // ----- alloc_nid as a whole -----

    /** The number of NAT blocks. */
    function Pages(): nat
      requires 0 < perBlock
    {
      (maxNid + perBlock - 1) / perBlock
    }

    /** The scan stands at the beginning of a NAT block, as it does after every build. */
    predicate Aligned(nid: nat)
      requires 0 < perBlock
    {
      nid % perBlock == 0
    }

    /** How many blocks the scan still has to pass before the one that id m is in. */
    function Ahead(nid: nat, m: nat): nat
      requires 0 < perBlock && m < maxNid && nid < maxNid
    {
      PageOf(nid);
      var p, q := nid / perBlock, m / perBlock;
      if p <= q then q - p else q + Pages() - p
    }

    /** What a mount sets up, and every operation keeps; the list limit leaves room for a whole build. */
    ghost predicate Ready()
      reads this`list, this`fcnt, this`tables, this`nextScanNid
    {
      && Good(St(Idle)) && 0 < perBlock && nextScanNid < maxNid
      && (scanPages + 2) * perBlock + |tables.journal| <= room
      && JournalInRange() && (forall x: nat :: StatusOf(P(), x) != Absent ==> x < maxNid)
    }

    ghost predicate JournalInRange()
      reads this`tables
    {
      forall k :: 0 <= k < |tables.journal| ==> tables.journal[k].key < maxNid
    }

    /** An id the builder can put on the list: free in the journal, or else in its NAT page, not live in the cache, and not handed out. */
    ghost predicate CanBeListed(m: nat)
      reads this`list, this`fcnt, this`tables
    {
      FreeBelow(m) && StatusOf(P(), m) != Alloc
    }

    /** Some id is on offer, or can come to be. */
    ghost predicate Offers()
      reads this`list, this`fcnt, this`tables
    {
      exists x: nat :: StatusOf(P(), x) == New || CanBeListed(x)
    }

    /** How many rounds of the retry loop it takes at most until id m is on offer, or another one is. */
    ghost function Rank(m: nat): nat
      requires 0 < perBlock && nextScanNid < maxNid
      reads this`fcnt, this`nextScanNid
    {
      if fcnt != 0 then 0 else if m < maxNid && Aligned(nextScanNid) then Ahead(nextScanNid, m) + 1 else Pages() + 1
    }

    lemma RankBound(m: nat)
      requires 0 < perBlock && nextScanNid < maxNid
      ensures Rank(m) <= Pages() + 1 && (fcnt == 0 && m < maxNid && Aligned(nextScanNid) ==> Rank(m) <= Pages())
    {
      PageOf(nextScanNid);
      if m < maxNid { PageOf(m); }
    }

    lemma PageOf(nid: nat)
      requires 0 < perBlock && nid < maxNid
      ensures nid / perBlock < Pages()
    {
      var q := nid / perBlock;
      assert nid == q * perBlock + nid % perBlock;
      assert maxNid + perBlock - 1 == Pages() * perBlock + (maxNid + perBlock - 1) % perBlock;
      MulLe(Pages(), q, perBlock);
    }

    /** One block further, or back to the beginning. */
    lemma NextPageOf(nid: nat)
      requires 0 < perBlock && nid < maxNid
      ensures var next := if PageEnd(nid) >= maxNid then 0 else PageEnd(nid);
        Aligned(next) && next < maxNid && next / perBlock == if nid / perBlock + 1 < Pages() then nid / perBlock + 1 else 0
    {
      var q, n := nid / perBlock, Pages();
      assert maxNid + perBlock - 1 == n * perBlock + (maxNid + perBlock - 1) % perBlock;
      assert nid == q * perBlock + nid % perBlock;
      assert (q + 1) * perBlock == q * perBlock + perBlock;
      DivUnique((q + 1) * perBlock, perBlock, q + 1, 0);
      DivUnique(0, perBlock, 0, 0);
      MulLe(q + 1, n - 1, perBlock);
      MulLe(n, q + 1, perBlock);
      assert (n - 1) * perBlock == n * perBlock - perBlock;
    }

    /** After i blocks the scan is i blocks closer, unless it has passed the block of m. */
    lemma {:induction false} ScanComesCloser(nid: nat, m: nat, i: nat)
      requires 0 < perBlock && m < maxNid && nid < maxNid
      ensures Advance(nid, i) < maxNid && (i > 0 || Aligned(nid) ==> Aligned(Advance(nid, i)))
      ensures i <= Ahead(nid, m) ==> Ahead(Advance(nid, i), m) == Ahead(nid, m) - i
    {
      PageOf(m);
      PageOf(nid);
      if i > 0 {
        ScanComesCloser(nid, m, i - 1);
        NextPageOf(Advance(nid, i - 1));
        PageOf(Advance(nid, i - 1));
      }
    }

    /** A scan of n blocks that reaches the block of m covers m, unless it starts in the middle of that block. */
    lemma ScanCovers(nid: nat, m: nat, n: nat)
      requires 0 < perBlock && m < maxNid && nid < maxNid && Aligned(nid) && Ahead(nid, m) < n
      requires PagesListed(nid, n) && FreeBelow(m) && PageAddr(tables, m) == NULL_ADDR
      ensures StatusOf(P(), m) != Absent
    {
      ScanComesCloser(nid, m, Ahead(nid, m));
      InPageOf(Advance(nid, Ahead(nid, m)), m);
    }

    lemma InPageOf(at: nat, m: nat)
      requires 0 < perBlock && m < maxNid && at < maxNid && Aligned(at) && Ahead(at, m) == 0
      ensures at <= m < PageEnd(at)
    {
      PageOf(at);
      PageOf(m);
      assert at / perBlock == m / perBlock;
      assert m == (m / perBlock) * perBlock + m % perBlock;
      assert at == (at / perBlock) * perBlock + at % perBlock;
    }

    /**
     * alloc_nid, undisturbed.  It refuses exactly when the node count says so; otherwise it gives out an id
     * that was neither live nor handed out.  The retry loop comes to an end because some id is on offer or
     * can be listed; `Rounds` shows that it would not otherwise.
     */
    method AllocNid(nodeCount: nat) returns (ok: bool, nid: nat)
      requires Ready() && (nodeCount + 1 < maxNid ==> Offers())
      modifies this`list, this`fcnt, this`nextScanNid
      ensures Ready() && (ok <==> nodeCount + 1 < maxNid)
      ensures ok ==> 0 < nid < maxNid && !Live(tables, nid) && StatusOf(old(P()), nid) != Alloc && StatusOf(P(), nid) == Alloc
    {
      ok, nid := false, 0;
      if nodeCount + 1 >= maxNid { return; }
      ghost var before := P();
      ghost var m: nat :| StatusOf(P(), m) == New || CanBeListed(m);
      NewCounts(P(), m);
      while !ok
        invariant Ready() && (!ok ==> fcnt != 0 || CanBeListed(m))
        invariant forall x: nat :: x != nid || !ok ==> (StatusOf(P(), x) == Alloc <==> StatusOf(before, x) == Alloc)
        invariant ok ==> 0 < nid < maxNid && !Live(tables, nid) && StatusOf(before, nid) != Alloc && StatusOf(P(), nid) == Alloc
        decreases !ok, Rank(m)
      {
        ok, nid := TakeOrBuild(m);
      }
    }

    /**
     * The retry loop cut off after n rounds.  It gives out an id only if one was on offer or could be listed,
     * and then it does within as many rounds as there are NAT blocks, and two; if not, no number of rounds
     * will do, since each leaves the same situation behind.
     */
    method Rounds(n: nat) returns (ok: bool, nid: nat)
      requires Ready()
      modifies this`list, this`fcnt, this`nextScanNid
      ensures Ready()
      ensures ok ==> old(Offers()) && !Live(tables, nid) && StatusOf(old(P()), nid) != Alloc && StatusOf(P(), nid) == Alloc
      ensures n >= Pages() + 2 ==> (ok <==> old(Offers()))
      ensures !old(Offers()) ==> !Offers() && fcnt == 0
    {
      ok, nid := false, 0;
      ghost var before, offers := P(), Offers();
      ghost var m: nat := 0;
      if offers { m :| StatusOf(P(), m) == New || CanBeListed(m); }
      NewCounts(P(), m);
      RankBound(m);
      if !offers { NoNewCounts(P()); }
      var i := 0;
      while i < n && !ok
        invariant Ready() && i <= n
        invariant !ok && offers ==> (fcnt != 0 || CanBeListed(m)) && i + Rank(m) <= Pages() + 1
        invariant !offers ==> !ok && !Offers() && fcnt == 0
        invariant !ok ==> forall x: nat :: StatusOf(P(), x) == Alloc <==> StatusOf(before, x) == Alloc
        invariant ok ==> !Live(tables, nid) && StatusOf(before, nid) != Alloc && StatusOf(P(), nid) == Alloc
      {
        ok, nid := TakeOrBuild(m);
        i := i + 1;
      }
    }

    /** One round: take an id if there is one, else build, which comes closer to any id that can be listed. */
    method TakeOrBuild(ghost m: nat) returns (ok: bool, nid: nat)
      requires Ready()
      modifies this`list, this`fcnt, this`nextScanNid
      ensures Ready() && (ok <==> old(fcnt) != 0)
      ensures ok ==> 0 < nid < maxNid && !Live(tables, nid) && StatusOf(old(P()), nid) == New && Becomes(old(P()), P(), nid, Alloc)
      ensures !ok ==> forall x: nat :: StatusOf(P(), x) == Alloc <==> StatusOf(old(P()), x) == Alloc
      ensures !ok ==> forall x: nat :: StatusOf(P(), x) == New ==> FreeBelow(x)
      ensures !ok && old(CanBeListed(m)) ==> CanBeListed(m) && Rank(m) < old(Rank(m))
      ensures !old(Offers()) ==> !ok && !Offers() && fcnt == 0
    {
      ghost var s := St(Idle);
      ok, nid := TakeNid(false);
      if ok {
        StepKeeps(s, room, Take);
        GivenIsFree(s, nid);
      } else {
        BuildRound(m);
      }
    }

    /** A round that has to build. */
    method BuildRound(ghost m: nat)
      requires Ready() && fcnt == 0
      modifies this`list, this`fcnt, this`nextScanNid
      ensures Ready()
      ensures forall x: nat :: StatusOf(P(), x) == Alloc <==> StatusOf(old(P()), x) == Alloc
      ensures forall x: nat :: StatusOf(P(), x) == New ==> FreeBelow(x)
      ensures old(CanBeListed(m)) ==> CanBeListed(m) && Rank(m) < old(Rank(m))
      ensures !old(Offers()) ==> !Offers() && fcnt == 0
    {
      ghost var before, from := P(), nextScanNid;
      NoNewWhenZero(before);
      ScanComesCloser(from, 0, scanPages + 1);
      BuildFreeNids();
      BuiltInRange(before);
      if old(CanBeListed(m)) { BuildComesCloser(before, from, m); }
      if !old(Offers()) { BuiltInVain(before); }
    }

    lemma BuiltInRange(before: Pool)
      requires NewOnlyFree(before, |tables.journal|) && PoolOk(before) && before.fcnt == 0
      requires forall x: nat :: StatusOf(before, x) != Absent ==> x < maxNid
      requires forall x: nat :: StatusOf(P(), x) == Alloc <==> StatusOf(before, x) == Alloc
      ensures forall x: nat :: StatusOf(P(), x) == New ==> FreeBelow(x)
      ensures forall x: nat :: StatusOf(P(), x) != Absent ==> x < maxNid
    {
      NoNewWhenZero(before);
      forall x: nat | StatusOf(P(), x) != Absent ensures x < maxNid {
        if StatusOf(P(), x) == Alloc { assert StatusOf(before, x) == Alloc; }
      }
    }

    /** A build lists the id, or brings the scan closer to its block. */
    lemma BuildComesCloser(before: Pool, from: nat, m: nat)
      requires 0 < perBlock && from < maxNid && nextScanNid == Advance(from, scanPages + 1) && PoolOk(P())
      requires FreeBelow(m) && StatusOf(P(), m) != Alloc
      requires PagesListed(from, scanPages + 1) && JournalListed(|tables.journal|)
      ensures nextScanNid < maxNid && Aligned(nextScanNid)
      ensures Rank(m) < if Aligned(from) then Ahead(from, m) + 1 else Pages() + 1
    {
      ScanComesCloser(from, m, scanPages + 1);
      RankBound(m);
      if StatusOf(P(), m) == New {
        NewCounts(P(), m);
      } else {
        assert !Journalled(m);
        if Aligned(from) && Ahead(from, m) < scanPages + 1 { ScanCovers(from, m, scanPages + 1); }
      }
    }

    /** When nothing was on offer and nothing could be listed, it is the same afterwards. */
    lemma BuiltInVain(before: Pool)
      requires PoolOk(P()) && forall x: nat :: StatusOf(P(), x) == New ==> FreeBelow(x)
      requires forall x: nat :: StatusOf(P(), x) == Alloc <==> StatusOf(before, x) == Alloc
      requires forall x: nat :: StatusOf(before, x) != New && !(FreeBelow(x) && StatusOf(before, x) != Alloc)
      ensures !Offers() && fcnt == 0
    {
      forall x: nat ensures StatusOf(P(), x) != New && !CanBeListed(x) {
        assert StatusOf(P(), x) == Alloc <==> StatusOf(before, x) == Alloc;
      }
      NoNewCounts(P());
    }

    /** alloc_nid_done. */
    method AllocNidDone(n: nat)
      requires PoolOk(P()) && StatusOf(P(), n) == Alloc
      modifies this`list
      ensures PoolOk(P()) && Becomes(old(P()), P(), n, Absent)
    {
      FinishedOk(P(), n);
      var i := LookupFreeNid(n);
      list := Without(list, i);
    }

    /** alloc_nid_failed. */
    method AllocNidFailed(n: nat)
      requires PoolOk(P()) && (n != 0 ==> StatusOf(P(), n) == Alloc)
      modifies this`list, this`fcnt
      ensures PoolOk(P())
      ensures n != 0 ==> Becomes(old(P()), P(), n, if old(fcnt) > room then Absent else New)
    {
      if n == 0 { return; }
      ReturnedOk(P(), room, n);
      var i := LookupFreeNid(n);
      if fcnt > room {
        list := Without(list, i);
      } else {
        list, fcnt := list[i := Entry(n, true)], fcnt + 1;
      }
    }

    /** One free id of a scanned NAT page: the builder's two sections in a row. */
    method AddScanned(n: nat) returns (r: int)
      requires Good(St(Scanning)) && PageAddr(tables, n) == NULL_ADDR
      modifies this`list, this`fcnt
      ensures Good(St(Scanning))
      ensures r < 0 <==> old(fcnt) > room
      ensures r < 0 ==> fcnt == old(fcnt)
      ensures fcnt <= old(fcnt) + 1
      ensures r >= 0 && n != 0 ==> CachedLive(tables, n) || StatusOf(P(), n) != Absent
      ensures KeepsListed(old(P()), P())
      ensures forall m: nat :: StatusOf(P(), m) == New ==> StatusOf(old(P()), m) == New || (m == n != 0 && !CachedLive(tables, n))
    {
      ghost var s := St(Scanning);
      r := AddFreeNid(n, true);
      AddedFromPage(s, room, n, P());
    }

    /** One past the last id of the NAT block of an id. */
    function PageEnd(nid: nat): nat
      requires 0 < perBlock
    {
      nid + (perBlock - nid % perBlock)
    }

    /** scan_nat_page: every free id of the page from startNid on gets listed, until the list is long enough. */
    method ScanNatPage(startNid: nat)
      requires Good(St(Scanning)) && 0 < perBlock
      modifies this`list, this`fcnt
      ensures Good(St(Scanning)) && KeepsListed(old(P()), P()) && fcnt <= old(fcnt) + perBlock
      ensures fcnt > room || ScannedUpTo(startNid, PageEnd(startNid))
      ensures NewOnlyFree(old(P()), 0)
    {
      var i := startNid % perBlock;
      var nid := startNid;
      while i < perBlock
        invariant i <= perBlock && nid == startNid + (i - startNid % perBlock)
        invariant Good(St(Scanning)) && ScannedUpTo(startNid, nid)
        invariant KeepsListed(old(P()), P()) && fcnt <= old(fcnt) + (i - startNid % perBlock)
        invariant NewOnlyFree(old(P()), 0)
      {
        if nid >= maxNid { break; }
        if PageAddr(tables, nid) == NULL_ADDR {
          var r := AddScanned(nid);
          if r < 0 { return; }
        }
        i, nid := i + 1, nid + 1;
      }
    }

    /** Where the scan stands after i more pages. */
    function Advance(nid: nat, i: nat): nat
      requires 0 < perBlock
    {
      if i == 0 then nid else
      var p := Advance(nid, i - 1);
      if PageEnd(p) >= maxNid then 0 else PageEnd(p)
    }

    /** Free in the journal, or else in its NAT page, and not live in the cache. */
    ghost predicate FreeBelow(m: nat)
      reads this`tables
    {
      0 < m < maxNid && Below(tables, m) == NULL_ADDR && !CachedLive(tables, m)
    }

    ghost predicate Journalled(m: nat)
      reads this`tables
    {
      TableLayout.JournalIndex(tables.journal, m) < |tables.journal|
    }

    /** Every free id of the first n pages scanned from nid on, free also in its page, is on the list. */
    ghost predicate PagesListed(nid: nat, n: nat)
      requires 0 < perBlock
      reads this`list, this`fcnt, this`tables
    {
      forall i: nat, m: nat :: i < n && Advance(nid, i) <= m < PageEnd(Advance(nid, i)) && PageFree(m) ==>
        StatusOf(P(), m) != Absent
    }

    ghost predicate PageFree(m: nat)
      reads this`tables
    {
      FreeBelow(m) && PageAddr(tables, m) == NULL_ADDR
    }

    /** Every free id of the first n journal entries is on the list. */
    ghost predicate JournalListed(n: nat)
      requires n <= |tables.journal|
      reads this`list, this`fcnt, this`tables
    {
      forall m: nat :: FreeBelow(m) && TableLayout.JournalIndex(tables.journal, m) < n ==> StatusOf(P(), m) != Absent
    }

    /** What the build has offered so far is free in the n journal entries seen, or else in its NAT page, and not live in the cache. */
    ghost predicate NewOnlyFree(before: Pool, n: nat)
      requires n <= |tables.journal|
      reads this`list, this`fcnt, this`tables
    {
      forall m: nat :: StatusOf(P(), m) == New ==> StatusOf(before, m) == New || FreeSoFar(m, n)
    }

    ghost predicate FreeSoFar(m: nat, n: nat)
      requires n <= |tables.journal|
      reads this`tables
    {
      && 0 < m < maxNid && !CachedLive(tables, m)
      && var j := TableLayout.JournalIndex(tables.journal, m);
        if j < n then tables.journal[j].value.blk == NULL_ADDR else PageAddr(tables, m) == NULL_ADDR
    }

    lemma PagesBound(i: nat)
      requires i <= scanPages
      ensures (i + 1) * perBlock + perBlock == (i + 2) * perBlock <= (scanPages + 2) * perBlock
    {
      MulLe(i + 2, scanPages + 2, perBlock);
    }

    lemma OnePageMore(before: Pool, nid: nat, n: nat)
      requires 0 < perBlock && KeepsListed(before, P()) && ScannedUpTo(Advance(nid, n), PageEnd(Advance(nid, n)))
      requires forall i: nat, m: nat :: i < n && Advance(nid, i) <= m < PageEnd(Advance(nid, i)) && PageFree(m) ==>
        StatusOf(before, m) != Absent
      ensures PagesListed(nid, n + 1)
    {
    }

    /** The free ids of a range are on the list: those with no page address and no live cache entry. */
    ghost predicate ScannedUpTo(from: nat, to: nat)
      reads this`list, this`fcnt, this`tables
    {
      forall n: nat :: from <= n < to && n < maxNid && n != 0 && PageAddr(tables, n) == NULL_ADDR && !CachedLive(tables, n) ==>
        StatusOf(P(), n) != Absent
    }

    /** The journal up to entry n is seen: free ids are still on the list, all of its own among them, and nothing else came. */
    ghost predicate SeenJournal(before: Pool, n: nat)
      requires n <= |tables.journal|
      reads this`list, this`fcnt, this`tables
    {
      && (forall m: nat :: FreeBelow(m) && StatusOf(before, m) != Absent ==> StatusOf(P(), m) != Absent)
      && (forall m: nat :: StatusOf(before, m) == Alloc <==> StatusOf(P(), m) == Alloc)
      && fcnt <= before.fcnt + n
    }

    /** One journal entry: a free id is added, a live one removed. */
    method CorrectNext(i: nat, ghost before: Pool, ghost first: Pool)
      requires i < |tables.journal| && Good(St(Journaling(i))) && JournalInRange()
      requires SeenJournal(before, i) && NewOnlyFree(first, i)
      modifies this`list, this`fcnt
      ensures Good(St(Journaling(i + 1))) && SeenJournal(before, i + 1) && NewOnlyFree(first, i + 1)
      ensures old(JournalListed(i)) && old(fcnt) <= room ==> JournalListed(i + 1)
    {
      KeyIndex(i);
      if tables.journal[i].value.blk == NULL_ADDR {
        AddJournalled(i);
      } else {
        RemoveJournalled(i);
      }
    }

    /** Journal entries are for different ids. */
    lemma KeyIndex(i: nat)
      requires i < |tables.journal| && JournalOk(tables.journal)
      ensures forall m: nat :: TableLayout.JournalIndex(tables.journal, m) == i <==> m == tables.journal[i].key
    {
      TableLayout.JournalUnique(tables.journal, tables.journal[i].key, i);
    }

    method AddJournalled(i: nat)
      requires i < |tables.journal| && Good(St(Journaling(i))) && tables.journal[i].value.blk == NULL_ADDR
      modifies this`list, this`fcnt
      ensures Good(St(Journaling(i + 1))) && KeepsListed(old(P()), P()) && fcnt <= old(fcnt) + 1
      ensures var n := tables.journal[i].key;
        && (forall m: nat :: StatusOf(P(), m) == New ==> StatusOf(old(P()), m) == New || (m == n != 0 && !CachedLive(tables, n)))
        && (old(fcnt) <= room && n != 0 && !CachedLive(tables, n) ==> StatusOf(P(), n) != Absent)
    {
      ghost var s := St(Journaling(i));
      var r := AddFreeNid(tables.journal[i].key, true);
      AddedFromJournal(s, room, i, P());
    }

    method RemoveJournalled(i: nat)
      requires i < |tables.journal| && Good(St(Journaling(i))) && tables.journal[i].value.blk != NULL_ADDR
      modifies this`list, this`fcnt
      ensures Good(St(Journaling(i + 1))) && fcnt <= old(fcnt)
      ensures var n := tables.journal[i].key;
        Becomes(old(P()), P(), n, if StatusOf(old(P()), n) == New then Absent else StatusOf(old(P()), n))
    {
      RemovedOk(P(), tables.journal[i].key);
      StepKeeps(St(Journaling(i)), room, RemoveJournal);
      RemoveFreeNid(tables.journal[i].key);
    }

    /** The journal loop of build_free_nids corrects what the pages said: ids free in the journal are added, live ones removed. */
    method ScanJournal(ghost first: Pool)
      requires Good(St(Journaling(0))) && JournalInRange() && NewOnlyFree(first, 0)
      modifies this`list, this`fcnt
      ensures Good(St(Idle)) && SeenJournal(old(P()), |tables.journal|) && NewOnlyFree(first, |tables.journal|)
      ensures old(fcnt) + |tables.journal| <= room ==> JournalListed(|tables.journal|)
    {
      ghost var before := P();
      var i := 0;
      while i < |tables.journal|
        invariant i <= |tables.journal| && Good(St(Journaling(i)))
        invariant SeenJournal(before, i) && NewOnlyFree(first, i)
        invariant before.fcnt + |tables.journal| <= room ==> JournalListed(i)
      {
        CorrectNext(i, before, first);
        i := i + 1;
      }
      StepKeeps(St(Journaling(i)), room, EndBuild);
    }

    /** The page loop of build_free_nids. */
    method ScanPages()
      requires Good(St(Scanning)) && 0 < perBlock && fcnt <= perBlock
      modifies this`list, this`fcnt, this`nextScanNid
      ensures Good(St(Scanning)) && KeepsListed(old(P()), P()) && NewOnlyFree(old(P()), 0)
      ensures nextScanNid == Advance(old(nextScanNid), scanPages + 1) && fcnt <= (scanPages + 2) * perBlock
      ensures (scanPages + 2) * perBlock <= room ==> PagesListed(old(nextScanNid), scanPages + 1)
    {
      ghost var first, from := P(), nextScanNid;
      var nid: nat := nextScanNid;
      var i := 0;
      while true
        invariant 0 <= i <= scanPages && Good(St(Scanning))
        invariant nid == Advance(from, i) && fcnt <= (i + 1) * perBlock
        invariant (scanPages + 2) * perBlock <= room ==> PagesListed(from, i)
        invariant KeepsListed(first, P()) && NewOnlyFree(first, 0)
        decreases scanPages - i
      {
        PagesBound(i);
        ghost var before := P();
        ScanNatPage(nid);
        if (scanPages + 2) * perBlock <= room { OnePageMore(before, from, i); }
        nid := PageEnd(nid);
        if nid >= maxNid {
          nid := 0;
        }
        if i == scanPages { break; }
        i := i + 1;
      }
      nextScanNid := nid;
    }

    /**
     * build_free_nids, undisturbed: afterwards no id on offer is live, whatever pages, journal and cache
     * say; what is new on offer is free below the cache and not live in it; and, since the list limit leaves
     * room for it, all such ids of the journal, and of the pages scanned, are listed.
     */
    method BuildFreeNids()
      requires Good(St(Idle)) && 0 < perBlock && 0 < maxNid && JournalInRange()
      modifies this`list, this`fcnt, this`nextScanNid
      ensures Good(St(Idle))
      ensures forall n: nat :: StatusOf(P(), n) == New ==> !Live(tables, n)
      ensures old(fcnt) > perBlock ==> P() == old(P()) && nextScanNid == old(nextScanNid)
      ensures old(fcnt) <= perBlock ==> nextScanNid == Advance(old(nextScanNid), scanPages + 1)
      ensures old(fcnt) <= perBlock && (scanPages + 2) * perBlock + |tables.journal| <= room ==>
        PagesListed(old(nextScanNid), scanPages + 1) && JournalListed(|tables.journal|)
      ensures NewOnlyFree(old(P()), |tables.journal|)
      ensures forall m: nat :: StatusOf(P(), m) == Alloc <==> StatusOf(old(P()), m) == Alloc
    {
      if fcnt <= perBlock {
        ghost var first := P();
        StepKeeps(St(Idle), room, StartBuild);
        ScanPages();
        StepKeeps(St(Scanning), room, StartJournal);
        ScanJournal(first);
      }
      forall n: nat | StatusOf(P(), n) == New ensures !Live(tables, n) {
        assert !Stale(St(Idle), n);
      }
    }
  }

  /**
   * A volume of one NAT block with four ids, all in use: 0 is reserved, 1 and 2 are the node and the meta
   * inode, which the node count leaves out, and 3 is the root.  The count of one node passes the guard of
   * alloc_nid, and no number of rounds finds an id.
   */
  method FullVolumeNeverAnswers(n: nat) returns (nm: NmInfo, ok: bool)
    ensures nm.Ready() && !nm.Offers() && nm.maxNid == 4 && !ok
    ensures forall x: nat :: Live(nm.tables, x) <==> 1 <= x <= 3
    ensures 1 + 1 < nm.maxNid
  {
    var tables := Tables(map[1 := 1, 2 := 1, 3 := 5], [], map[]);
    nm := new NmInfo(32, 4, 4, 4, tables, 0);
    assert forall x: nat :: StatusOf(nm.P(), x) == Absent;
    var nid;
    ok, nid := nm.Rounds(n);
  }

  lemma GivenIsFree(s: State, n: nat)
    requires Good(s) && s.phase.Idle? && StatusOf(s.pool, n) == New
    ensures !Live(s.tables, n) && n != 0
  {
    assert !Stale(s, n);
    assert Entry(n, true) in s.pool.list;
  }

  /** An id on offer counts, so with a count of 0 there is none, and the other way round. */
  lemma NewCounts(p: Pool, n: nat)
    requires PoolOk(p)
    ensures StatusOf(p, n) == New ==> p.fcnt != 0
  {
    NoneNew(p.list);
  }

  lemma NoNewWhenZero(p: Pool)
    requires PoolOk(p) && p.fcnt == 0
    ensures forall n: nat :: StatusOf(p, n) != New
  {
    forall n: nat ensures StatusOf(p, n) != New { NewCounts(p, n); }
  }

  lemma NoNewCounts(p: Pool)
    requires PoolOk(p) && forall n: nat :: StatusOf(p, n) != New
    ensures p.fcnt == 0
  {
    if p.fcnt != 0 { TakenOk(p); }
  }

  /** add_free_nid on an entry of a NAT page is the builder's check and its insertion in a row. */
  lemma AddedFromPage(s: State, room: int, n: nat, p: Pool)
    requires Good(s) && s.phase.Scanning? && s.pending.Nothing? && PageAddr(s.tables, n) == NULL_ADDR
    requires p == if CachedLive(s.tables, n) then s.pool else Inserted(s.pool, room, n)
    ensures Good(s.(pool := p)) && KeepsListed(s.pool, p)
    ensures s.pool.fcnt <= room && n != 0 && !CachedLive(s.tables, n) ==> StatusOf(p, n) != Absent
    ensures forall m: nat :: StatusOf(p, m) == New ==> StatusOf(s.pool, m) == New || (m == n != 0 && !CachedLive(s.tables, n))
  {
    InsertedOk(s.pool, room, n);
    if n != 0 && s.pool.fcnt <= room && !CachedLive(s.tables, n) {
      var t := Next(s, room, CheckPage(n));
      StepKeeps(s, room, CheckPage(n));
      StepKeeps(t, room, InsertPending);
    }
  }

  /** add_free_nid on a journal entry is the builder's check and its insertion in a row. */
  lemma AddedFromJournal(s: State, room: int, k: nat, p: Pool)
    requires Good(s) && s.phase == Journaling(k) && s.pending.Nothing? && k < |s.tables.journal|
    requires s.tables.journal[k].value.blk == NULL_ADDR
    requires var n := s.tables.journal[k].key; p == if CachedLive(s.tables, n) then s.pool else Inserted(s.pool, room, n)
    ensures Good(State(p, s.tables, Journaling(k + 1), Nothing)) && KeepsListed(s.pool, p)
    ensures var n := s.tables.journal[k].key;
      && (forall m: nat :: StatusOf(p, m) == New ==> StatusOf(s.pool, m) == New || (m == n != 0 && !CachedLive(s.tables, n)))
      && (s.pool.fcnt <= room && n != 0 && !CachedLive(s.tables, n) ==> StatusOf(p, n) != Absent)
  {
    var t := Next(s, room, CheckJournal);
    InsertedOk(s.pool, room, s.tables.journal[k].key);
    StepKeeps(s, room, CheckJournal);
    if t.pending.About? { StepKeeps(t, room, InsertPending); }
  }

  /** No id leaves the list, and none becomes handed out or stops being so. */
  ghost predicate KeepsListed(p: Pool, q: Pool) {
    forall m: nat :: (StatusOf(p, m) != Absent ==> StatusOf(q, m) != Absent) && (StatusOf(p, m) == Alloc <==> StatusOf(q, m) == Alloc)
  }
}
