/**
 * The free-id protocol under concurrency (node.c): allocators take, finish or return ids and change
 * addresses, while one builder scans NAT pages and the journal.  Each lock-protected section is one step.
 */
module FreeNidRuns {
  import opened Geometry
  import opened FreeNidPool
  import TableLayout
  import NatManager

  type Journal = seq<TableLayout.JournalEntry<NatManager.NodeInfo>>

  /** The addresses in the three layers of the NAT: pages on disk, the journal over them, the cache over both. */
  datatype Tables = Tables(page: map<nat, int>, journal: Journal, cache: map<nat, int>)

  function PageAddr(t: Tables, n: nat): int {
    if n in t.page then t.page[n] else NULL_ADDR
  }

  function Below(t: Tables, n: nat): int {
    var i := TableLayout.JournalIndex(t.journal, n);
    if i < |t.journal| then t.journal[i].value.blk else PageAddr(t, n)
  }

  /** The address get_node_info returns. */
  function Addr(t: Tables, n: nat): int {
    if n in t.cache then t.cache[n] else Below(t, n)
  }

  predicate Live(t: Tables, n: nat) { Addr(t, n) != NULL_ADDR }

  /** The check of add_free_nid under nat_tree_lock. */
  predicate CachedLive(t: Tables, n: nat) { n in t.cache && t.cache[n] != NULL_ADDR }

  /** Where the builder is: not running, scanning NAT pages, or at journal entry `next`. */
  datatype Phase = Idle | Scanning | Journaling(next: nat)

  /** An id that add_free_nid has checked but not yet put on the list. */
  datatype Pending = Nothing | About(nid: nat)

  datatype State = State(pool: Pool, tables: Tables, phase: Phase, pending: Pending)

  /** The part of the journal that the builder has not come to yet. */
  function From(s: State): nat {
    match s.phase
    case Idle => |s.tables.journal|
    case Scanning => 0
    case Journaling(k) => k
  }

  /** The journal has a live address for n, and the builder will still take n off the list. */
  ghost predicate Stale(s: State, n: nat) {
    exists i :: From(s) <= i < |s.tables.journal| && s.tables.journal[i].key == n && s.tables.journal[i].value.blk != NULL_ADDR
  }

  ghost predicate JournalOk(journal: Journal) {
    forall i, j :: 0 <= i < j < |journal| ==> journal[i].key != journal[j].key
  }

  /** No id that can be given out is live, except one the builder is still going to remove. */
  ghost predicate NewAreFree(s: State) {
    forall n: nat :: StatusOf(s.pool, n) == New ==> !Live(s.tables, n) || Stale(s, n)
  }

  /** The id about to be inserted is free, or will be taken off again, or is refused because it is on the list. */
  ghost predicate PendingOk(s: State) {
    s.pending.About? ==>
      !Live(s.tables, s.pending.nid) || Stale(s, s.pending.nid) || StatusOf(s.pool, s.pending.nid) == Alloc
  }

  /** What holds at every point of a run that has offered no live id so far. */
  ghost predicate Fair(s: State) {
    && PoolOk(s.pool) && JournalOk(s.tables.journal) && NewAreFree(s)
    && (s.pending.About? ==> !s.phase.Idle? && s.pending.nid != 0)
  }

  ghost predicate Good(s: State) {
    Fair(s) && PendingOk(s)
  }

  // ----- steps -----

  datatype Step =
    | Take
    | SetAddr(n: nat, addr: int)
    | Done(n: nat)
    | Failed(n: nat)
    | CacheFill(n: nat)
    | CacheEvict(n: nat)
    | Flush(t: Tables)
    | FlushAdd(n: nat)
    | StartBuild
    | CheckPage(n: nat)
    | InsertPending
    | StartJournal
    | CheckJournal
    | RemoveJournal
    | EndBuild

  /** What the callers' protocol and the locks allow.  Checkpoints, and so flushes, exclude a running builder. */
  ghost predicate Enabled(s: State, st: Step) {
    match st
    case Take => s.phase.Idle? && s.pool.fcnt != 0
    case SetAddr(n, addr) => Live(s.tables, n) || (addr != NULL_ADDR && StatusOf(s.pool, n) == Alloc)
    case Done(n) => StatusOf(s.pool, n) == Alloc && Live(s.tables, n)
    case Failed(n) => StatusOf(s.pool, n) == Alloc && !Live(s.tables, n)
    case CacheFill(n) => n !in s.tables.cache
    case CacheEvict(n) => n in s.tables.cache && s.tables.cache[n] == Below(s.tables, n)
    case Flush(t) => s.phase.Idle? && JournalOk(t.journal) && forall n: nat :: Addr(t, n) == Addr(s.tables, n)
    case FlushAdd(n) => s.phase.Idle? && !Live(s.tables, n)
    case StartBuild => s.phase.Idle?
    case CheckPage(n) => s.phase.Scanning? && s.pending.Nothing? && PageAddr(s.tables, n) == NULL_ADDR && n != 0
    case InsertPending => s.pending.About?
    case StartJournal => s.phase.Scanning? && s.pending.Nothing?
    case CheckJournal => s.phase.Journaling? && s.pending.Nothing? && s.phase.next < |s.tables.journal|
      && s.tables.journal[s.phase.next].value.blk == NULL_ADDR
    case RemoveJournal => s.phase.Journaling? && s.pending.Nothing? && s.phase.next < |s.tables.journal|
      && s.tables.journal[s.phase.next].value.blk != NULL_ADDR
    case EndBuild => s.phase.Journaling? && s.pending.Nothing? && s.phase.next == |s.tables.journal|
  }

  /** add_free_nid up to the check of the cache. */
  function Check(s: State, room: int, n: nat): Pending {
    if s.pool.fcnt > room || n == 0 || CachedLive(s.tables, n) then Nothing else About(n)
  }

  function WithCache(s: State, cache: map<nat, int>): State {
    s.(tables := s.tables.(cache := cache))
  }

  /** `room` is twice MAX_FREE_NIDS. */
  function Next(s: State, room: int, st: Step): State
  {
    match st
    case Take => if FirstNew(s.pool.list) < |s.pool.list| then s.(pool := Taken(s.pool)) else s
    case SetAddr(n, addr) => WithCache(s, s.tables.cache[n := addr])
    case Done(n) => if Find(s.pool.list, n) < |s.pool.list| then s.(pool := Finished(s.pool, n)) else s
    case Failed(n) => if Find(s.pool.list, n) < |s.pool.list| then s.(pool := Returned(s.pool, room, n)) else s
    case CacheFill(n) => WithCache(s, s.tables.cache[n := Addr(s.tables, n)])
    case CacheEvict(n) => WithCache(s, s.tables.cache - {n})
    case Flush(t) => s.(tables := t)
    case FlushAdd(n) => s.(pool := Inserted(s.pool, room, n))
    case StartBuild => s.(phase := Scanning)
    case CheckPage(n) => s.(pending := Check(s, room, n))
    case InsertPending => if s.pending.About? then s.(pool := Inserted(s.pool, s.pool.fcnt, s.pending.nid), pending := Nothing) else s
    case StartJournal => s.(phase := Journaling(0))
    case CheckJournal =>
      if s.phase.Journaling? && s.phase.next < |s.tables.journal| then
        s.(pending := Check(s, room, s.tables.journal[s.phase.next].key), phase := Journaling(s.phase.next + 1))
      else s
    case RemoveJournal =>
      if s.phase.Journaling? && s.phase.next < |s.tables.journal| then
        s.(pool := Removed(s.pool, s.tables.journal[s.phase.next].key), phase := Journaling(s.phase.next + 1))
      else s
    case EndBuild => s.(phase := Idle)
  }

  /** alloc_nid_done of the very id the builder has checked and not yet inserted. */
  predicate Overtakes(s: State, st: Step) {
    st.Done? && s.pending == About(st.n)
  }

  /** add_free_nid puts an id on the list that has become live since its check, and that the journal will not correct. */
  ghost predicate Harmful(s: State, st: Step) {
    && st.InsertPending? && s.pending.About? && StatusOf(s.pool, s.pending.nid) == Absent
    && Live(s.tables, s.pending.nid) && !Stale(s, s.pending.nid)
  }

  // ----- every step but a harmful one is fair, and every step but an overtaking one keeps the invariant -----

  /** A change of the pool at one id. */
  lemma PoolStep(s: State, p: Pool, n: nat, st: Status)
    requires Fair(s) && PoolOk(p) && Becomes(s.pool, p, n, st)
    requires st == New ==> !Live(s.tables, n) || Stale(s, n)
    ensures Fair(s.(pool := p))
    ensures PendingOk(s) && (s.pending == About(n) && st != Alloc ==> !Live(s.tables, n) || Stale(s, n)) ==>
      PendingOk(s.(pool := p))
  {
    var t := s.(pool := p);
    forall m: nat | StatusOf(p, m) == New ensures !Live(t.tables, m) || Stale(t, m) {
      assert m != n ==> StatusOf(s.pool, m) == New;
      assert Stale(s, m) ==> Stale(t, m);
    }
    if s.pending.About? { assert Stale(s, s.pending.nid) ==> Stale(t, s.pending.nid); }
  }

  /** Only the address of n changes, and not its layers below the cache. */
  ghost predicate AddrStep(t: Tables, u: Tables, n: nat, addr: int) {
    u.journal == t.journal && u.page == t.page && forall m: nat :: Addr(u, m) == if m == n then addr else Addr(t, m)
  }

  lemma NatStep(s: State, u: Tables, n: nat, addr: int)
    requires Fair(s) && AddrStep(s.tables, u, n, addr)
    requires addr != NULL_ADDR ==> Live(s.tables, n) || StatusOf(s.pool, n) == Alloc
    ensures Fair(s.(tables := u))
    ensures PendingOk(s) ==> PendingOk(s.(tables := u))
  {
    var t := s.(tables := u);
    forall m: nat ensures Stale(s, m) ==> Stale(t, m) {
      if Stale(s, m) {
        var i :| From(s) <= i < |s.tables.journal| && s.tables.journal[i].key == m && s.tables.journal[i].value.blk != NULL_ADDR;
        assert u.journal[i].key == m;
      }
    }
  }

  lemma CacheChange(t: Tables, n: nat, addr: int)
    ensures AddrStep(t, t.(cache := t.cache[n := addr]), n, addr)
    ensures Addr(t, n) == addr == Below(t, n) ==> AddrStep(t, t.(cache := t.cache - {n}), n, addr)
  {
    forall m: nat ensures Below(t.(cache := t.cache[n := addr]), m) == Below(t, m) {
    }
    forall m: nat ensures Below(t.(cache := t.cache - {n}), m) == Below(t, m) {
    }
  }

  /** An id whose page entry is NULL and which is not live in the cache is free, or stale. */
  lemma CheckedPage(s: State, n: nat)
    requires s.phase.Scanning? && PageAddr(s.tables, n) == NULL_ADDR && !CachedLive(s.tables, n)
    ensures !Live(s.tables, n) || Stale(s, n)
  {
    var i := TableLayout.JournalIndex(s.tables.journal, n);
    if n !in s.tables.cache && i < |s.tables.journal| && s.tables.journal[i].value.blk != NULL_ADDR {
      assert Stale(s, n);
    }
  }

  lemma CheckedJournal(s: State, k: nat)
    requires JournalOk(s.tables.journal) && k < |s.tables.journal| && s.tables.journal[k].value.blk == NULL_ADDR
    requires !CachedLive(s.tables, s.tables.journal[k].key)
    ensures !Live(s.tables, s.tables.journal[k].key)
  {
    var i := TableLayout.JournalIndex(s.tables.journal, s.tables.journal[k].key);
    assert i == k;
  }

  /** The builder moves on past entry k, which no longer has to be removed. */
  lemma Advance(s: State, t: State, k: nat)
    requires s.phase == Journaling(k) && t.phase == Journaling(k + 1) && k < |s.tables.journal| && t.tables == s.tables
    ensures forall m: nat :: Stale(s, m) && (m != s.tables.journal[k].key || s.tables.journal[k].value.blk == NULL_ADDR) ==> Stale(t, m)
  {
    forall m: nat | Stale(s, m) && (m != s.tables.journal[k].key || s.tables.journal[k].value.blk == NULL_ADDR) ensures Stale(t, m) {
      var i :| From(s) <= i < |s.tables.journal| && s.tables.journal[i].key == m && s.tables.journal[i].value.blk != NULL_ADDR;
      assert i != k;
    }
  }

  lemma {:induction false} RemoveJournalKeeps(s: State, room: int)
    requires Fair(s) && Enabled(s, RemoveJournal)
    ensures Good(Next(s, room, RemoveJournal))
  {
    var k := s.phase.next;
    var t := Next(s, room, RemoveJournal);
    RemovedOk(s.pool, s.tables.journal[k].key);
    Advance(s, t, k);
    forall m: nat | StatusOf(t.pool, m) == New ensures !Live(t.tables, m) || Stale(t, m) {
      assert m != s.tables.journal[k].key && StatusOf(s.pool, m) == New;
    }
  }

  lemma {:induction false} CheckJournalKeeps(s: State, room: int)
    requires Fair(s) && Enabled(s, CheckJournal)
    ensures Good(Next(s, room, CheckJournal))
  {
    var k := s.phase.next;
    var t := Next(s, room, CheckJournal);
    Advance(s, t, k);
    if t.pending.About? { CheckedJournal(s, k); }
  }

  /** Changes of phase alone. */
  lemma PhaseStep(s: State, phase: Phase)
    requires Fair(s) && s.pending.Nothing?
    requires From(s.(phase := phase)) <= From(s)
      || (s.phase.Journaling? && s.phase.next == |s.tables.journal| && phase.Idle?)
    ensures Good(s.(phase := phase))
  {
    var t := s.(phase := phase);
    forall m: nat ensures Stale(s, m) ==> Stale(t, m) {
      if Stale(s, m) {
        var i :| From(s) <= i < |s.tables.journal| && s.tables.journal[i].key == m && s.tables.journal[i].value.blk != NULL_ADDR;
        assert From(t) <= i;
      }
    }
  }

  lemma {:induction false} FlushKeeps(s: State, t: Tables)
    requires Fair(s) && Enabled(s, Flush(t))
    ensures Good(s.(tables := t))
  {
    forall m: nat ensures !Stale(s, m) && Live(t, m) == Live(s.tables, m) {
    }
  }

  lemma {:induction false} BuilderKeeps(s: State, room: int, st: Step)
    requires Fair(s) && Enabled(s, st)
    requires st.StartBuild? || st.CheckPage? || st.StartJournal? || st.CheckJournal? || st.RemoveJournal? || st.EndBuild?
    ensures Good(Next(s, room, st))
  {
    match st
    case StartBuild => PhaseStep(s, Scanning);
    case CheckPage(n) =>
      if Next(s, room, st).pending.About? {
        CheckedPage(s, n);
        assert Stale(s, n) ==> Stale(Next(s, room, st), n);
      }
      SamePool(s, Next(s, room, st));
    case StartJournal => PhaseStep(s, Journaling(0));
    case CheckJournal => CheckJournalKeeps(s, room);
    case RemoveJournal => RemoveJournalKeeps(s, room);
    case EndBuild => PhaseStep(s, Idle);
  }

  lemma SamePool(s: State, t: State)
    requires NewAreFree(s) && t.pool == s.pool && t.tables == s.tables && t.phase == s.phase
    ensures NewAreFree(t)
  {
    forall m: nat ensures Stale(s, m) ==> Stale(t, m) {
    }
  }

  lemma {:induction false} PoolKeeps(s: State, room: int, st: Step)
    requires Fair(s) && Enabled(s, st)
    requires st.Take? || st.Done? || st.Failed? || st.FlushAdd?
    ensures Fair(Next(s, room, st))
    ensures PendingOk(s) && !Overtakes(s, st) ==> PendingOk(Next(s, room, st))
  {
    match st
    case Take =>
      TakenOk(s.pool);
      PoolStep(s, Taken(s.pool), s.pool.list[FirstNew(s.pool.list)].nid, Alloc);
    case Done(n) =>
      FinishedOk(s.pool, n);
      PoolStep(s, Finished(s.pool, n), n, Absent);
    case Failed(n) =>
      ReturnedOk(s.pool, room, n);
      PoolStep(s, Returned(s.pool, room, n), n, if s.pool.fcnt > room then Absent else New);
    case FlushAdd(n) =>
      InsertedOk(s.pool, room, n);
      PoolStep(s, Inserted(s.pool, room, n), n, StatusOf(Inserted(s.pool, room, n), n));
  }

  lemma {:induction false} InsertKeeps(s: State, room: int)
    requires Fair(s) && s.pending.About? && !Harmful(s, InsertPending)
    ensures Good(Next(s, room, InsertPending))
  {
    var n := s.pending.nid;
    var q := Inserted(s.pool, s.pool.fcnt, n);
    InsertedOk(s.pool, s.pool.fcnt, n);
    PoolStep(s, q, n, StatusOf(q, n));
    SamePool(s.(pool := q), Next(s, room, InsertPending));
  }

  lemma {:induction false} CacheKeeps(s: State, room: int, st: Step)
    requires Fair(s) && Enabled(s, st) && (st.SetAddr? || st.CacheFill? || st.CacheEvict?)
    ensures Fair(Next(s, room, st))
    ensures PendingOk(s) ==> PendingOk(Next(s, room, st))
  {
    match st
    case SetAddr(n, addr) =>
      CacheChange(s.tables, n, addr);
      NatStep(s, s.tables.(cache := s.tables.cache[n := addr]), n, addr);
    case CacheFill(n) =>
      CacheChange(s.tables, n, Addr(s.tables, n));
      NatStep(s, s.tables.(cache := s.tables.cache[n := Addr(s.tables, n)]), n, Addr(s.tables, n));
    case CacheEvict(n) =>
      CacheChange(s.tables, n, Addr(s.tables, n));
      NatStep(s, s.tables.(cache := s.tables.cache - {n}), n, Addr(s.tables, n));
  }

  /** Every step but a harmful one leaves all ids on offer free, and every step that does not overtake the builder keeps the invariant. */
  lemma {:induction false} StepKeeps(s: State, room: int, st: Step)
    requires Fair(s) && Enabled(s, st)
    ensures !Harmful(s, st) ==> Fair(Next(s, room, st))
    ensures Good(s) && !Overtakes(s, st) ==> Good(Next(s, room, st))
  {
    if st.Take? || st.Done? || st.Failed? || st.FlushAdd? {
      PoolKeeps(s, room, st);
    } else if st.SetAddr? || st.CacheFill? || st.CacheEvict? {
      CacheKeeps(s, room, st);
    } else if st.Flush? {
      FlushKeeps(s, st.t);
    } else if st.InsertPending? {
      if !Harmful(s, st) { InsertKeeps(s, room); }
    } else {
      BuilderKeeps(s, room, st);
    }
  }

  // ----- runs -----

  function Run(s: State, room: int, steps: seq<Step>): State {
    if steps == [] then s else Next(Run(s, room, steps[..|steps| - 1]), room, steps[|steps| - 1])
  }

  ghost predicate Legal(s: State, room: int, steps: seq<Step>) {
    forall i :: 0 <= i < |steps| ==> Enabled(Run(s, room, steps[..i]), steps[i])
  }

  ghost predicate Calm(s: State, room: int, steps: seq<Step>) {
    forall i :: 0 <= i < |steps| ==> !Overtakes(Run(s, room, steps[..i]), steps[i])
  }

  lemma {:induction false} RunKeeps(s: State, room: int, steps: seq<Step>)
    requires Good(s) && Legal(s, room, steps) && Calm(s, room, steps)
    ensures Good(Run(s, room, steps))
  {
    if steps != [] {
      var n := |steps| - 1;
      forall i | 0 <= i < n ensures steps[..n][..i] == steps[..i] && steps[..n][i] == steps[i] {
      }
      RunKeeps(s, room, steps[..n]);
      StepKeeps(Run(s, room, steps[..n]), room, steps[n]);
    }
  }

  /** The id alloc_nid would give out. */
  function NextGiven(s: State): nat
    requires FirstNew(s.pool.list) < |s.pool.list|
  {
    s.pool.list[FirstNew(s.pool.list)].nid
  }

  // ----- the tables of the NAT manager -----

  /** The addresses in the tables that NatManager keeps. */
  ghost function TablesOf(l: TableLayout.Layout, t: NatManager.Nat): Tables
    requires NatManager.NatOk(l, t)
  {
    Tables(map n: nat | n < l.MaxKey() :: TableLayout.InPage(l, t.store, n).blk, t.store.journal,
           map n | n in t.cache :: t.cache[n].ni.blk)
  }

  /** The address the protocol looks at is the one get_node_info returns. */
  lemma {:induction false} TablesAgree(l: TableLayout.Layout, t: NatManager.Nat, n: nat)
    requires NatManager.NatOk(l, t) && n < l.MaxKey()
    ensures Addr(TablesOf(l, t), n) == NatManager.View(l, t)[n].blk && JournalOk(TablesOf(l, t).journal)
  {
  }

  /** So every change of the NAT tables that answers lookups as before is a step of the protocol. */
  lemma {:induction false} FlushIsAStep(s: State, l: TableLayout.Layout, t: NatManager.Nat, u: NatManager.Nat)
    requires NatManager.NatOk(l, t) && NatManager.NatOk(l, u) && NatManager.View(l, u) == NatManager.View(l, t)
    requires s.tables == TablesOf(l, t) && s.phase.Idle?
    ensures Enabled(s, Flush(TablesOf(l, u)))
  {
    forall n: nat ensures Addr(TablesOf(l, u), n) == Addr(s.tables, n) {
      if n < l.MaxKey() {
        TablesAgree(l, t, n);
        TablesAgree(l, u, n);
      }
    }
  }

  // ----- the overtaken builder -----

  /** A harmful step offers an id that is live. */
  lemma {:induction false} HarmfulOffersLive(s: State, room: int, st: Step)
    requires Fair(s) && Harmful(s, st)
    ensures StatusOf(Next(s, room, st).pool, s.pending.nid) == New && Live(Next(s, room, st).tables, s.pending.nid)
    ensures !NewAreFree(Next(s, room, st))
  {
    var n, e := s.pending.nid, Next(s, room, st);
    InsertedOk(s.pool, s.pool.fcnt, n);
    assert StatusOf(e.pool, n) == New && Stale(e, n) ==> Stale(s, n);
  }

  ghost predicate NoneHarmful(s: State, room: int, steps: seq<Step>) {
    forall i :: 0 <= i < |steps| ==> !Harmful(Run(s, room, steps[..i]), steps[i])
  }

  ghost predicate AlwaysFree(s: State, room: int, steps: seq<Step>) {
    forall k :: 0 <= k <= |steps| ==> NewAreFree(Run(s, room, steps[..k]))
  }

  lemma {:induction false} RunFair(s: State, room: int, steps: seq<Step>)
    requires Fair(s) && Legal(s, room, steps) && NoneHarmful(s, room, steps)
    ensures Fair(Run(s, room, steps))
  {
    if steps != [] {
      var n := |steps| - 1;
      forall i | 0 <= i < n ensures steps[..n][..i] == steps[..i] && steps[..n][i] == steps[i] {
      }
      RunFair(s, room, steps[..n]);
      StepKeeps(Run(s, room, steps[..n]), room, steps[n]);
    }
  }

  /** The steps before k of a legal run form a legal run, and of a harmless one a harmless one. */
  lemma Prefix(s: State, room: int, steps: seq<Step>, k: nat)
    requires k <= |steps|
    ensures Legal(s, room, steps) ==> Legal(s, room, steps[..k])
    ensures (forall i :: 0 <= i < k ==> !Harmful(Run(s, room, steps[..i]), steps[i])) ==> NoneHarmful(s, room, steps[..k])
  {
    forall i | 0 <= i < k ensures steps[..k][..i] == steps[..i] && steps[..k][i] == steps[i] {
    }
  }

  lemma {:induction false} RunStep(s: State, room: int, steps: seq<Step>, k: nat)
    requires k < |steps|
    ensures Run(s, room, steps[..k + 1]) == Next(Run(s, room, steps[..k]), room, steps[k])
  {
    assert steps[..k + 1][..k] == steps[..k];
  }

  /** A harmful step after a harmless beginning breaks the run. */
  lemma {:induction false} HarmBreaks(s: State, room: int, steps: seq<Step>, k: nat)
    requires Fair(s) && Legal(s, room, steps) && k < |steps| && Harmful(Run(s, room, steps[..k]), steps[k])
    requires forall i :: 0 <= i < k ==> !Harmful(Run(s, room, steps[..i]), steps[i])
    ensures !AlwaysFree(s, room, steps)
  {
    Prefix(s, room, steps, k);
    RunFair(s, room, steps[..k]);
    HarmfulOffersLive(Run(s, room, steps[..k]), room, steps[k]);
    RunStep(s, room, steps, k);
    assert !NewAreFree(Run(s, room, steps[..k + 1]));
  }

  /** So any harmful step does: the first one decides. */
  lemma {:induction false} FirstHarm(s: State, room: int, steps: seq<Step>, k: nat)
    requires Fair(s) && Legal(s, room, steps) && k < |steps| && Harmful(Run(s, room, steps[..k]), steps[k])
    ensures !AlwaysFree(s, room, steps)
    decreases k
  {
    if i :| 0 <= i < k && Harmful(Run(s, room, steps[..i]), steps[i]) {
      FirstHarm(s, room, steps, i);
    } else {
      HarmBreaks(s, room, steps, k);
    }
  }

  /**
   * In every interleaving, overtaken or not, no live id is ever on offer exactly when no insertion of the
   * builder comes while its id is live, off the list, and without a journal address still to be read.
   */
  lemma {:induction false} AlwaysFreeIff(s: State, room: int, steps: seq<Step>)
    requires Fair(s) && Legal(s, room, steps)
    ensures AlwaysFree(s, room, steps) <==> NoneHarmful(s, room, steps)
  {
    if NoneHarmful(s, room, steps) {
      forall k | 0 <= k <= |steps| ensures NewAreFree(Run(s, room, steps[..k])) {
        Prefix(s, room, steps, k);
        RunFair(s, room, steps[..k]);
      }
    } else {
      var k :| 0 <= k < |steps| && Harmful(Run(s, room, steps[..k]), steps[k]);
      FirstHarm(s, room, steps, k);
    }
  }

  /** A run in which no allocator overtakes the builder has no harmful step. */
  lemma {:induction false} CalmIsHarmless(s: State, room: int, steps: seq<Step>)
    requires Good(s) && Legal(s, room, steps) && Calm(s, room, steps)
    ensures NoneHarmful(s, room, steps)
  {
    forall k | 0 <= k < |steps| ensures !Harmful(Run(s, room, steps[..k]), steps[k]) {
      Prefix(s, room, steps, k);
      forall i | 0 <= i < k ensures steps[..k][..i] == steps[..i] && steps[..k][i] == steps[i] {
      }
      RunKeeps(s, room, steps[..k]);
    }
  }

  /** In every interleaving without a harmful step, alloc_nid gives out an id that is not 0, not live and held by nobody. */
  lemma {:induction false} GivenIdsAreFree(s: State, room: int, steps: seq<Step>)
    requires Fair(s) && Legal(s, room, steps) && NoneHarmful(s, room, steps) && Enabled(Run(s, room, steps), Take)
    ensures FirstNew(Run(s, room, steps).pool.list) < |Run(s, room, steps).pool.list|
    ensures var e := Run(s, room, steps);
      !Live(e.tables, NextGiven(e)) && StatusOf(e.pool, NextGiven(e)) == New && NextGiven(e) != 0
  {
    RunFair(s, room, steps);
    TakenOk(Run(s, room, steps).pool);
    assert !Stale(Run(s, room, steps), NextGiven(Run(s, room, steps)));
  }

  /** The address of n after steps that may set it. */
  function LastAddr(steps: seq<Step>, n: nat, addr: int): int {
    if steps == [] then addr
    else
      var last := steps[|steps| - 1];
      if last.SetAddr? && last.n == n then last.addr else LastAddr(steps[..|steps| - 1], n, addr)
  }

  /** While the builder waits with a checked id that is off the list, nothing but its address can change. */
  lemma {:induction false} WhileWaiting(s: State, room: int, steps: seq<Step>, n: nat)
    requires Fair(s) && s.pending == About(n) && StatusOf(s.pool, n) == Absent
    requires Legal(s, room, steps) && forall i :: 0 <= i < |steps| ==> !steps[i].InsertPending?
    ensures var e := Run(s, room, steps);
      && Fair(e) && e.pending == About(n) && StatusOf(e.pool, n) == Absent
      && e.phase == s.phase && e.tables.journal == s.tables.journal
      && Addr(e.tables, n) == LastAddr(steps, n, Addr(s.tables, n))
  {
    if steps != [] {
      var k := |steps| - 1;
      Prefix(s, room, steps, k);
      assert forall i :: 0 <= i < k ==> steps[..k][i] == steps[i];
      WhileWaiting(s, room, steps[..k], n);
      assert Enabled(Run(s, room, steps[..k]), steps[k]);
      WaitingStep(Run(s, room, steps[..k]), room, steps[k], n);
    }
  }

  lemma {:induction false} WaitingStep(s: State, room: int, st: Step, n: nat)
    requires Fair(s) && s.pending == About(n) && StatusOf(s.pool, n) == Absent && Enabled(s, st) && !st.InsertPending?
    ensures var e := Next(s, room, st);
      && Fair(e) && e.pending == About(n) && StatusOf(e.pool, n) == Absent
      && e.phase == s.phase && e.tables.journal == s.tables.journal
      && Addr(e.tables, n) == if st.SetAddr? && st.n == n then st.addr else Addr(s.tables, n)
  {
    StepKeeps(s, room, st);
    match st
    case Done(m) => FinishedOk(s.pool, m);
    case Failed(m) => ReturnedOk(s.pool, room, m);
    case SetAddr(m, addr) => CacheChange(s.tables, m, addr);
    case CacheFill(m) => CacheChange(s.tables, m, Addr(s.tables, m));
    case CacheEvict(m) => CacheChange(s.tables, m, Addr(s.tables, m));
    case _ =>
  }

  /**
   * When an allocator finishes the id between the builder's check and its insertion, whatever other steps
   * come in between, the id goes back on the list.  It is then free exactly if its address was set to NULL
   * again before the insertion, or the journal has an address for it that the builder has still to read.
   */
  lemma {:induction false} OvertakingBreaksIff(s: State, room: int, n: nat, between: seq<Step>)
    requires Good(s) && s.pending == About(n) && Enabled(s, Done(n))
    requires Legal(Next(s, room, Done(n)), room, between) && forall i :: 0 <= i < |between| ==> !between[i].InsertPending?
    ensures var e := Run(Next(s, room, Done(n)), room, between);
      && Enabled(e, InsertPending) && StatusOf(Next(e, room, InsertPending).pool, n) == New
      && (NewAreFree(Next(e, room, InsertPending)) <==> LastAddr(between, n, Addr(s.tables, n)) == NULL_ADDR || Stale(s, n))
  {
    var d := Next(s, room, Done(n));
    FinishedOk(s.pool, n);
    StepKeeps(s, room, Done(n));
    WhileWaiting(d, room, between, n);
    var e := Run(d, room, between);
    InsertedOk(e.pool, e.pool.fcnt, n);
    assert Stale(e, n) <==> Stale(s, n);
    if Harmful(e, InsertPending) { HarmfulOffersLive(e, room, InsertPending); } else { StepKeeps(e, room, InsertPending); }
  }

  lemma FivePool()
    ensures PoolOk(Pool([Entry(5, false)], 0)) && StatusOf(Pool([Entry(5, false)], 0), 5) == Alloc
    ensures Find([Entry(5, false)], 5) == 0 && Finished(Pool([Entry(5, false)], 0), 5) == Pool([], 0)
    ensures Inserted(Pool([], 0), 0, 5) == Pool([Entry(5, true)], 1)
  {
    assert CountNew([Entry(5, false)][..0]) == 0;
    assert Find([Entry(5, false)][..0], 5) == 0;
    assert Without([Entry(5, false)], 0) == [];
  }

  /** A concrete run: id 5 was given out, and after the builder it is given out again while in use. */
  lemma {:induction false} LiveIdGivenTwice(s: State, room: nat)
    requires s == State(Pool([Entry(5, false)], 0), Tables(map[], [], map[]), Idle, Nothing)
    ensures Good(s)
    ensures var a := Next(s, room, StartBuild);
      var b := Next(a, room, CheckPage(5));
      var c := Next(b, room, SetAddr(5, NEW_ADDR));
      var d := Next(c, room, Done(5));
      var e := Next(d, room, InsertPending);
      var f := Next(e, room, StartJournal);
      var g := Next(f, room, EndBuild);
      && Enabled(s, StartBuild) && Enabled(a, CheckPage(5)) && Enabled(b, SetAddr(5, NEW_ADDR)) && Enabled(c, Done(5))
      && Enabled(d, InsertPending) && Enabled(e, StartJournal) && Enabled(f, EndBuild) && Enabled(g, Take)
      && g.pool.list == [Entry(5, true)] && Live(g.tables, 5)
  {
    FivePool();
  }
}
