/**
 * Compacted summaries (segment.c): the NAT journal, the SIT journal and the summary entries of the three
 * data logs, packed into as few blocks as possible at a checkpoint and read back at mount.
 */
module CompactSummaries {
  import opened Geometry
  import opened Bytes

  /** PAGE_CACHE_SIZE, SUM_JOURNAL_SIZE, SUM_FOOTER_SIZE and SUMMARY_SIZE. */
  datatype Sizes = Sizes(page: nat, journal: nat, footer: nat, entry: nat)
  {
    predicate Valid() { 0 < entry && 2 * journal + entry + footer <= page }

    /** sum_in_page of the first block, and of every further one. */
    function FirstCap(): (n: nat)
      requires Valid()
    {
      (page - 2 * journal - footer) / entry
    }

    function Cap(): (n: nat)
      requires Valid()
    {
      (page - footer) / entry
    }
  }

  /** A data log: whether it allocates by SSR, its next offset, and its summary block, one entry per block. */
  datatype Log = Log(ssr: bool, blkoff: nat, entries: seq<Raw>)

  /** How many entries of a log are saved. */
  function Count(blocksPerSeg: nat, log: Log): nat { if log.ssr then blocksPerSeg else log.blkoff }

  ghost predicate LogOk(g: Sizes, blocksPerSeg: nat, log: Log) {
    && |log.entries| == blocksPerSeg && log.blkoff <= blocksPerSeg
    && forall j :: 0 <= j < blocksPerSeg ==> |log.entries[j]| == g.entry
  }

  /** Entry number k of the area: which block, and where in it. */
  datatype Place = Place(page: nat, ofs: nat)

  function PlaceOf(g: Sizes, k: nat): Place
    requires g.Valid() && 0 < g.Cap()
  {
    var c0 := g.FirstCap();
    if k < c0 then Place(0, 2 * g.journal + k * g.entry)
    else Place(1 + (k - c0) / g.Cap(), (k - c0) % g.Cap() * g.entry)
  }

  lemma {:induction false} Caps(g: Sizes)
    requires g.Valid()
    ensures 0 < g.FirstCap() <= g.Cap()
    ensures g.FirstCap() * g.entry <= g.page - 2 * g.journal - g.footer < g.FirstCap() * g.entry + g.entry
    ensures g.Cap() * g.entry <= g.page - g.footer < g.Cap() * g.entry + g.entry
  {
    var a, b := g.page - 2 * g.journal - g.footer, g.page - g.footer;
    Quotient(a, g.entry);
    Quotient(b, g.entry);
    MulLe(g.FirstCap(), 0, g.entry);
    MulLe(g.Cap() + 1, g.FirstCap(), g.entry);
    assert (g.Cap() + 1) * g.entry == g.Cap() * g.entry + g.entry;
  }

  lemma Quotient(a: nat, d: nat)
    requires 0 < d
    ensures a / d * d <= a < a / d * d + d
  {
  }

  lemma RowInside(r: nat, c: nat, e: nat)
    requires r < c
    ensures r * e + e <= c * e
  {
    MulLe(r + 1, c, e);
  }

  /** An entry lies inside its block, before the footer and after the journals. */
  lemma {:induction false} PlaceInside(g: Sizes, k: nat)
    requires g.Valid() && 0 < g.Cap()
    ensures PlaceOf(g, k).ofs + g.entry <= g.page - g.footer
    ensures PlaceOf(g, k).page == 0 ==> 2 * g.journal <= PlaceOf(g, k).ofs
  {
    Caps(g);
    var c0 := g.FirstCap();
    if k < c0 {
      RowInside(k, c0, g.entry);
    } else {
      RowInside((k - c0) % g.Cap(), g.Cap(), g.entry);
    }
  }

  /** Division steps: the next index stays in the row or starts the next one. */
  lemma {:induction false} DivStep(m: nat, c: nat)
    requires 0 < c
    ensures m % c + 1 < c ==> (m + 1) / c == m / c && (m + 1) % c == m % c + 1
    ensures m % c + 1 >= c ==> (m + 1) / c == m / c + 1 && (m + 1) % c == 0
  {
    if m % c + 1 < c { DivUnique(m + 1, c, m / c, m % c + 1); } else { NextRow(m, c); }
  }

  lemma NextRow(m: nat, c: nat)
    requires 0 < c && m % c + 1 >= c
    ensures (m + 1) / c == m / c + 1 && (m + 1) % c == 0
  {
    assert m == m / c * c + (c - 1);
    assert (m / c + 1) * c == m / c * c + c;
    DivUnique(m + 1, c, m / c + 1, 0);
  }

  /** Is there room for one more entry of this size behind entry r of a row of c entries? */
  lemma {:induction false} RowFull(base: nat, r: nat, c: nat, e: nat, limit: nat)
    requires 0 < e && r < c && base + c * e <= limit < base + c * e + e
    ensures base + r * e + e + e <= limit <==> r + 1 < c
  {
    MulLe(r + 2, c, e);
    MulLe(c, r + 1, e);
    assert (r + 2) * e == r * e + e + e && (r + 1) * e == r * e + e;
  }

  /** Where the entry after one at p goes: behind it, or at the start of a new block. */
  function Behind(g: Sizes, p: Place): Place {
    if p.ofs + g.entry + g.entry <= g.page - g.footer then Place(p.page, p.ofs + g.entry) else Place(p.page + 1, 0)
  }

  lemma {:induction false} PlaceNextFirst(g: Sizes, k: nat)
    requires g.Valid() && 0 < g.Cap() && k < g.FirstCap()
    ensures PlaceOf(g, k + 1) == Behind(g, PlaceOf(g, k))
  {
    Caps(g);
    RowFull(2 * g.journal, k, g.FirstCap(), g.entry, g.page - g.footer);
    DivUnique(0, g.Cap(), 0, 0);
    assert (k + 1) * g.entry == k * g.entry + g.entry;
  }

  lemma {:induction false} PlaceNextLater(g: Sizes, k: nat)
    requires g.Valid() && 0 < g.Cap() && k >= g.FirstCap()
    ensures PlaceOf(g, k + 1) == Behind(g, PlaceOf(g, k))
  {
    Caps(g);
    var m, c := k - g.FirstCap(), g.Cap();
    DivStep(m, c);
    RowFull(0, m % c, c, g.entry, g.page - g.footer);
    assert (m % c + 1) * g.entry == m % c * g.entry + g.entry;
  }

  /** Writer and reader agree on where the next entry goes. */
  lemma {:induction false} PlaceNext(g: Sizes, k: nat)
    requires g.Valid() && 0 < g.Cap()
    ensures PlaceOf(g, k + 1) == Behind(g, PlaceOf(g, k))
  {
    if k < g.FirstCap() { PlaceNextFirst(g, k); } else { PlaceNextLater(g, k); }
  }

  /** A later entry lies in a later block, or behind in the same block. */
  lemma {:induction false} PlacesApart(g: Sizes, t: nat, k: nat)
    requires g.Valid() && 0 < g.Cap() && t < k
    ensures PlaceOf(g, t).page < PlaceOf(g, k).page
      || (PlaceOf(g, t).page == PlaceOf(g, k).page && PlaceOf(g, t).ofs + g.entry <= PlaceOf(g, k).ofs)
  {
    PlaceNext(g, k - 1);
    if t < k - 1 { PlacesApart(g, t, k - 1); }
  }

  // ----- the area on disk -----

  function PutAt(page: Raw, ofs: nat, b: Raw): (r: Raw)
    requires ofs + |b| <= |page|
    ensures |r| == |page| && r[ofs..ofs + |b|] == b
    ensures forall i :: 0 <= i < |page| && !(ofs <= i < ofs + |b|) ==> r[i] == page[i]
  {
    page[..ofs] + b + page[ofs + |b|..]
  }

  lemma PutElsewhere(page: Raw, ofs: nat, b: Raw, lo: nat, hi: nat)
    requires ofs + |b| <= |page| && lo <= hi <= |page| && (hi <= ofs || ofs + |b| <= lo)
    ensures PutAt(page, ofs, b)[lo..hi] == page[lo..hi]
  {
  }

  /** Entry k of the area starting at block `start` is s. */
  ghost predicate Stored(g: Sizes, disk: map<nat, Raw>, start: nat, k: nat, s: Raw)
    requires g.Valid() && 0 < g.Cap()
  {
    var p := PlaceOf(g, k);
    && start + p.page in disk && |disk[start + p.page]| == g.page && p.ofs + g.entry <= g.page
    && disk[start + p.page][p.ofs..p.ofs + g.entry] == s
  }

  /** The two journals at the head of the area. */
  ghost predicate HeadStored(g: Sizes, disk: map<nat, Raw>, start: nat, nats: Raw, sits: Raw) {
    && start in disk && |disk[start]| == g.page && 2 * g.journal <= g.page
    && disk[start][..g.journal] == nats && disk[start][g.journal..2 * g.journal] == sits
  }

  ghost predicate AllStored(g: Sizes, disk: map<nat, Raw>, start: nat, all: seq<Raw>)
    requires g.Valid() && 0 < g.Cap()
  {
    forall k :: 0 <= k < |all| ==> Stored(g, disk, start, k, all[k])
  }

  /** What is saved of the first i logs. */
  function Saved(blocksPerSeg: nat, logs: seq<Log>, i: nat): seq<Raw>
    requires i <= |logs| && forall l :: 0 <= l < |logs| ==> Count(blocksPerSeg, logs[l]) <= |logs[l].entries|
  {
    if i == 0 then [] else Saved(blocksPerSeg, logs, i - 1) + logs[i - 1].entries[..Count(blocksPerSeg, logs[i - 1])]
  }

  /** Writing entry k leaves the journals and the entries before it alone. */
  lemma {:induction false} StoreOne(g: Sizes, disk: map<nat, Raw>, start: nat, all: seq<Raw>, s: Raw, nats: Raw, sits: Raw)
    requires g.Valid() && 0 < g.Cap() && AllStored(g, disk, start, all) && |s| == g.entry
    requires HeadStored(g, disk, start, nats, sits)
    requires start + PlaceOf(g, |all|).page in disk && |disk[start + PlaceOf(g, |all|).page]| == g.page
    requires PlaceOf(g, |all|).ofs + g.entry <= g.page
    ensures var at := start + PlaceOf(g, |all|).page;
      var disk' := disk[at := PutAt(disk[at], PlaceOf(g, |all|).ofs, s)];
      AllStored(g, disk', start, all + [s]) && HeadStored(g, disk', start, nats, sits)
  {
    var p := PlaceOf(g, |all|);
    var disk' := disk[start + p.page := PutAt(disk[start + p.page], p.ofs, s)];
    PlaceInside(g, |all|);
    forall k | 0 <= k < |all| + 1 ensures Stored(g, disk', start, k, (all + [s])[k]) {
      if k < |all| {
        assert Stored(g, disk, start, k, all[k]);
        KeptElsewhere(g, disk, start, all, s, k);
      }
    }
    if p.page == 0 {
      PutElsewhere(disk[start], p.ofs, s, 0, g.journal);
      PutElsewhere(disk[start], p.ofs, s, g.journal, 2 * g.journal);
    }
  }

  lemma {:induction false} KeptElsewhere(g: Sizes, disk: map<nat, Raw>, start: nat, all: seq<Raw>, s: Raw, k: nat)
    requires g.Valid() && 0 < g.Cap() && k < |all| && Stored(g, disk, start, k, all[k]) && |s| == g.entry
    requires start + PlaceOf(g, |all|).page in disk && |disk[start + PlaceOf(g, |all|).page]| == g.page
    requires PlaceOf(g, |all|).ofs + g.entry <= g.page
    ensures var at := start + PlaceOf(g, |all|).page;
      Stored(g, disk[at := PutAt(disk[at], PlaceOf(g, |all|).ofs, s)], start, k, all[k])
  {
    PlacesApart(g, k, |all|);
    var p, q := PlaceOf(g, |all|), PlaceOf(g, k);
    if p.page == q.page { PutElsewhere(disk[start + p.page], p.ofs, s, q.ofs, q.ofs + g.entry); }
  }

  /** A block that is only now taken from the cache holds nothing of the area yet. */
  lemma {:induction false} GrabNext(g: Sizes, disk: map<nat, Raw>, start: nat, all: seq<Raw>, page: Raw, nats: Raw, sits: Raw)
    requires g.Valid() && 0 < g.Cap() && AllStored(g, disk, start, all) && HeadStored(g, disk, start, nats, sits)
    requires PlaceOf(g, |all|).ofs == 0 && 0 < |all|
    ensures AllStored(g, disk[start + PlaceOf(g, |all|).page := page], start, all)
    ensures HeadStored(g, disk[start + PlaceOf(g, |all|).page := page], start, nats, sits)
  {
    var disk' := disk[start + PlaceOf(g, |all|).page := page];
    PlacesApart(g, 0, |all|);
    forall k | 0 <= k < |all| ensures Stored(g, disk', start, k, all[k]) {
      assert Stored(g, disk, start, k, all[k]);
      PlacesApart(g, k, |all|);
    }
  }

  // ----- counting pages -----

  /** How many blocks the writer touches: the first always, and each further one when an entry goes there. */
  function PagesUsed(g: Sizes, n: nat): nat
    requires g.Valid() && 0 < g.Cap()
  {
    if n == 0 then 1 else PlaceOf(g, n - 1).page + 1
  }

  /** npages_for_summary_flush. */
  function PagesReported(g: Sizes, n: nat): nat
    requires g.Valid()
  {
    if n <= g.FirstCap() then 1 else if n - g.FirstCap() <= g.Cap() then 2 else 3
  }

  /** The report is exact whenever it is 1 or 2, which is when the compacted form is chosen. */
  lemma {:induction false} ReportIsExact(g: Sizes, n: nat)
    requires g.Valid() && 0 < g.Cap()
    ensures PagesReported(g, n) <= 2 ==> PagesUsed(g, n) == PagesReported(g, n)
    ensures PagesReported(g, n) == 3 ==> PagesUsed(g, n) >= 3
  {
    Caps(g);
    if n > g.FirstCap() {
      var m := n - 1 - g.FirstCap();
      if m < g.Cap() { DivUnique(m, g.Cap(), 0, m); } else { AtLeastOne(m, g.Cap()); }
    }
  }

  lemma AtLeastOne(m: nat, c: nat)
    requires 0 < c <= m
    ensures m / c >= 1
  {
    if m / c == 0 { Quotient(m, c); }
  }

  lemma {:induction false} SavedLength(blocksPerSeg: nat, logs: seq<Log>, i: nat)
    requires i <= |logs| && forall l :: 0 <= l < |logs| ==> Count(blocksPerSeg, logs[l]) <= |logs[l].entries|
    ensures |Saved(blocksPerSeg, logs, i)| == Total(blocksPerSeg, logs, i)
  {
    if i > 0 { SavedLength(blocksPerSeg, logs, i - 1); }
  }

  function Total(blocksPerSeg: nat, logs: seq<Log>, i: nat): nat
    requires i <= |logs|
  {
    if i == 0 then 0 else Total(blocksPerSeg, logs, i - 1) + Count(blocksPerSeg, logs[i - 1])
  }

  /**
   * npages_for_summary_flush, as the source computes it: a whole segment for a log in SSR mode, and the offset
   * for any other.
   */
  method NpagesForSummaryFlush(g: Sizes, blocksPerSeg: nat, logs: seq<Log>) returns (npages: nat)
    requires g.Valid()
    ensures npages == PagesReported(g, Total(blocksPerSeg, logs, |logs|))
    ensures |logs| == 3 ==>
      var n := (if logs[0].ssr then blocksPerSeg else logs[0].blkoff) + (if logs[1].ssr then blocksPerSeg else logs[1].blkoff)
        + (if logs[2].ssr then blocksPerSeg else logs[2].blkoff);
      npages == PagesReported(g, n) && (0 < g.Cap() && npages <= 2 ==> npages == PagesUsed(g, n))
  {
    var validSumCount := 0;
    var i := 0;
    while i < |logs|
      invariant i <= |logs| && validSumCount == Total(blocksPerSeg, logs, i)
    {
      validSumCount := validSumCount + if logs[i].ssr then blocksPerSeg else logs[i].blkoff;
      i := i + 1;
    }
    var sumInPage := (g.page - 2 * g.journal - g.footer) / g.entry;
    npages := if validSumCount <= sumInPage then 1
    else if validSumCount - sumInPage <= (g.page - g.footer) / g.entry then 2 else 3;
    if 0 < g.Cap() { ReportIsExact(g, validSumCount); }
    if |logs| == 3 { TotalOfThree(blocksPerSeg, logs); }
  }

  lemma TotalOfThree(blocksPerSeg: nat, logs: seq<Log>)
    requires |logs| == 3
    ensures Total(blocksPerSeg, logs, 3) == (if logs[0].ssr then blocksPerSeg else logs[0].blkoff) + (if logs[1].ssr then blocksPerSeg else logs[1].blkoff)
        + (if logs[2].ssr then blocksPerSeg else logs[2].blkoff)
  {
    assert Total(blocksPerSeg, logs, 2) == Total(blocksPerSeg, logs, 1) + Count(blocksPerSeg, logs[1]);
  }

  // ----- writing -----

  /** grab_meta_page and get_meta_page: the block as it is stored, or an empty one. */
  function MetaPage(g: Sizes, disk: map<nat, Raw>, addr: nat): (page: Raw)
    ensures |page| == g.page
  {
    if addr in disk && |disk[addr]| == g.page then disk[addr] else Zeros(g.page)
  }

  /** The writer's variables: the block it holds if any, the offset in it, and the next block to take. */
  datatype Cursor = Cursor(disk: map<nat, Raw>, held: bool, cur: nat, written: nat, next: nat)

  ghost predicate CursorOk(g: Sizes, c: Cursor, start: nat, all: seq<Raw>, nats: Raw, sits: Raw)
    requires g.Valid() && 0 < g.Cap()
  {
    && AllStored(g, c.disk, start, all) && HeadStored(g, c.disk, start, nats, sits)
    && c.next == start + PagesUsed(g, |all|)
    && (c.held ==> c.cur == start + PlaceOf(g, |all|).page && c.written == PlaceOf(g, |all|).ofs
                   && c.cur in c.disk && |c.disk[c.cur]| == g.page && c.next == c.cur + 1)
    && (!c.held ==> 0 < |all| && PlaceOf(g, |all|).ofs == 0 && c.next == start + PlaceOf(g, |all|).page)
  }

  /** The head of write_compacted_summaries: both journals in the first block. */
  method WriteHead(g: Sizes, disk: map<nat, Raw>, start: nat, nats: Raw, sits: Raw) returns (c: Cursor)
    requires g.Valid() && 0 < g.Cap() && |nats| == |sits| == g.journal
    ensures CursorOk(g, c, start, [], nats, sits) && c.held
  {
    Caps(g);
    var page := MetaPage(g, disk, start);
    var first := PutAt(page, 0, nats);
    var both := PutAt(first, g.journal, sits);
    PutElsewhere(first, g.journal, sits, 0, g.journal);
    c := Cursor(disk[start := both], true, start, 2 * g.journal, start + 1);
  }

  /** The block for the next entry, taken only when there is an entry to put in it. */
  method TakePage(g: Sizes, c: Cursor, ghost start: nat, ghost all: seq<Raw>, ghost nats: Raw, ghost sits: Raw)
    returns (c': Cursor)
    requires g.Valid() && 0 < g.Cap() && CursorOk(g, c, start, all, nats, sits)
    ensures c'.held && c'.cur == start + PlaceOf(g, |all|).page && c'.written == PlaceOf(g, |all|).ofs
    ensures c'.next == c'.cur + 1 && c'.cur in c'.disk && |c'.disk[c'.cur]| == g.page
    ensures AllStored(g, c'.disk, start, all) && HeadStored(g, c'.disk, start, nats, sits)
  {
    c' := c;
    if !c.held {
      var page := MetaPage(g, c.disk, c.next);
      GrabNext(g, c.disk, start, all, page, nats, sits);
      c' := Cursor(c.disk[c.next := page], true, c.next, 0, c.next + 1);
    }
  }

  /** One summary entry of the inner loop. */
  method WriteSummary(g: Sizes, c: Cursor, s: Raw, ghost start: nat, ghost all: seq<Raw>, ghost nats: Raw, ghost sits: Raw)
    returns (c': Cursor)
    requires g.Valid() && 0 < g.Cap() && CursorOk(g, c, start, all, nats, sits) && |s| == g.entry
    ensures CursorOk(g, c', start, all + [s], nats, sits)
  {
    var t := TakePage(g, c, start, all, nats, sits);
    PlaceInside(g, |all|);
    PlaceNext(g, |all|);
    StoreOne(g, t.disk, start, all, s, nats, sits);
    var disk := t.disk[t.cur := PutAt(t.disk[t.cur], t.written, s)];
    var written := t.written + g.entry;
    c' := Cursor(disk, written + g.entry <= g.page - g.footer, t.cur, written, t.next);
  }

  ghost predicate LogsOk(g: Sizes, blocksPerSeg: nat, logs: seq<Log>) {
    |logs| == 3 && forall i :: 0 <= i < 3 ==> LogOk(g, blocksPerSeg, logs[i])
  }

  /** Entry number k of the area, told by log and index. */
  ghost predicate SavedAs(g: Sizes, disk: map<nat, Raw>, start: nat, blocksPerSeg: nat, logs: seq<Log>)
    requires g.Valid() && 0 < g.Cap() && LogsOk(g, blocksPerSeg, logs)
  {
    AllStored(g, disk, start, Saved(blocksPerSeg, logs, 3))
  }

  /** write_compacted_summaries. */
  method WriteCompactedSummaries(g: Sizes, disk0: map<nat, Raw>, blkaddr: nat, blocksPerSeg: nat, nats: Raw, sits: Raw, logs: seq<Log>)
    returns (disk: map<nat, Raw>, used: nat)
    requires g.Valid() && 0 < g.Cap() && LogsOk(g, blocksPerSeg, logs) && |nats| == |sits| == g.journal
    ensures HeadStored(g, disk, blkaddr, nats, sits) && SavedAs(g, disk, blkaddr, blocksPerSeg, logs)
    ensures forall i: nat, j: nat :: i < 3 && j < |logs[i].entries| && (logs[i].ssr || j < logs[i].blkoff) ==>
      IsStored(g, disk, blkaddr, logs[i].entries[j])
    ensures used == PagesUsed(g, (if logs[0].ssr then blocksPerSeg else logs[0].blkoff) + (if logs[1].ssr then blocksPerSeg else logs[1].blkoff)
        + (if logs[2].ssr then blocksPerSeg else logs[2].blkoff))
  {
    var c := WriteHead(g, disk0, blkaddr, nats, sits);
    ghost var all: seq<Raw> := [];
    var i := 0;
    while i < 3
      invariant 0 <= i <= 3 && all == Saved(blocksPerSeg, logs, i) && CursorOk(g, c, blkaddr, all, nats, sits)
    {
      c, all := WriteLog(g, c, blocksPerSeg, logs, i, blkaddr, all, nats, sits);
      i := i + 1;
    }
    SavedLength(blocksPerSeg, logs, 3);
    TotalOfThree(blocksPerSeg, logs);
    disk, used := c.disk, c.next - blkaddr;
    EachStored(g, disk, blkaddr, blocksPerSeg, logs);
  }

  /** The inner loop for one log. */
  method WriteLog(g: Sizes, c0: Cursor, blocksPerSeg: nat, logs: seq<Log>, i: nat, ghost start: nat, ghost all0: seq<Raw>,
                  ghost nats: Raw, ghost sits: Raw)
    returns (c: Cursor, ghost all: seq<Raw>)
    requires g.Valid() && 0 < g.Cap() && LogsOk(g, blocksPerSeg, logs) && i < 3
    requires all0 == Saved(blocksPerSeg, logs, i) && CursorOk(g, c0, start, all0, nats, sits)
    ensures all == Saved(blocksPerSeg, logs, i + 1) && CursorOk(g, c, start, all, nats, sits)
  {
    c, all := c0, all0;
    assert LogOk(g, blocksPerSeg, logs[i]);
    var n := if logs[i].ssr then blocksPerSeg else logs[i].blkoff;
    var j := 0;
    while j < n
      invariant 0 <= j <= n <= |logs[i].entries| && CursorOk(g, c, start, all, nats, sits)
      invariant all == all0 + logs[i].entries[..j]
    {
      c := WriteSummary(g, c, logs[i].entries[j], start, all, nats, sits);
      all := all + [logs[i].entries[j]];
      j := j + 1;
    }
  }

  ghost predicate IsStored(g: Sizes, disk: map<nat, Raw>, start: nat, s: Raw)
    requires g.Valid() && 0 < g.Cap()
  {
    exists k: nat :: Stored(g, disk, start, k, s)
  }

  /** All entries of a log in SSR mode are in the area, and those before the offset of any other. */
  lemma EachStored(g: Sizes, disk: map<nat, Raw>, start: nat, blocksPerSeg: nat, logs: seq<Log>)
    requires g.Valid() && 0 < g.Cap() && LogsOk(g, blocksPerSeg, logs) && SavedAs(g, disk, start, blocksPerSeg, logs)
    ensures forall i: nat, j: nat :: i < 3 && j < |logs[i].entries| && (logs[i].ssr || j < logs[i].blkoff) ==>
      IsStored(g, disk, start, logs[i].entries[j])
  {
    forall i: nat, j: nat | i < 3 && j < |logs[i].entries| && (logs[i].ssr || j < logs[i].blkoff)
      ensures IsStored(g, disk, start, logs[i].entries[j])
    {
      assert LogOk(g, blocksPerSeg, logs[i]);
      SavedEntry(g, blocksPerSeg, logs, i, j);
      assert Stored(g, disk, start, Total(blocksPerSeg, logs, i) + j, logs[i].entries[j]);
    }
  }

  // ----- reading -----

  /** The k-th entry is the j-th saved one of log i. */
  lemma {:induction false} SavedEntry(g: Sizes, blocksPerSeg: nat, logs: seq<Log>, i: nat, j: nat)
    requires LogsOk(g, blocksPerSeg, logs) && i < 3 && j < Count(blocksPerSeg, logs[i])
    ensures LogOk(g, blocksPerSeg, logs[i])
    ensures Total(blocksPerSeg, logs, i) + j < |Saved(blocksPerSeg, logs, 3)|
    ensures Saved(blocksPerSeg, logs, 3)[Total(blocksPerSeg, logs, i) + j] == logs[i].entries[j]
  {
    assert LogOk(g, blocksPerSeg, logs[i]);
    SavedLength(blocksPerSeg, logs, i);
    SavedFrom(g, blocksPerSeg, logs, i + 1, 3);
    InMiddle(Saved(blocksPerSeg, logs, i), logs[i].entries[..Count(blocksPerSeg, logs[i])], Saved(blocksPerSeg, logs, 3), j);
  }

  lemma InMiddle(a: seq<Raw>, b: seq<Raw>, whole: seq<Raw>, j: nat)
    requires a + b <= whole && j < |b|
    ensures |a| + j < |whole| && whole[|a| + j] == b[j]
  {
    assert whole[|a| + j] == (a + b)[|a| + j];
  }

  lemma {:induction false} SavedFrom(g: Sizes, blocksPerSeg: nat, logs: seq<Log>, i: nat, n: nat)
    requires LogsOk(g, blocksPerSeg, logs) && i <= n <= 3
    ensures Saved(blocksPerSeg, logs, i) <= Saved(blocksPerSeg, logs, n)
  {
    if i < n { SavedFrom(g, blocksPerSeg, logs, i, n - 1); }
  }

  /**
   * read_compacted_summaries: given what the checkpoint says of each log, both journals and every saved
   * entry come back; the rest of each summary block keeps what was there before.
   */
  method ReadCompactedSummaries(g: Sizes, disk: map<nat, Raw>, start: nat, blocksPerSeg: nat, before: seq<Log>, ghost logs: seq<Log>, ghost nats0: Raw, ghost sits0: Raw)
    returns (nats: Raw, sits: Raw, restored: seq<Log>)
    requires g.Valid() && 0 < g.Cap() && LogsOk(g, blocksPerSeg, logs) && LogsOk(g, blocksPerSeg, before)
    requires HeadStored(g, disk, start, nats0, sits0) && SavedAs(g, disk, start, blocksPerSeg, logs)
    requires forall i :: 0 <= i < 3 ==> before[i].ssr == logs[i].ssr && before[i].blkoff == logs[i].blkoff
    ensures nats == nats0 && sits == sits0 && |restored| == 3
    ensures forall i :: 0 <= i < 3 ==> RestoredFrom(before[i], logs[i], restored[i])
  {
    var kaddr := MetaPage(g, disk, start);
    nats, sits := kaddr[..g.journal], kaddr[g.journal..2 * g.journal];
    var next: nat, ofs: nat := start + 1, 2 * g.journal;
    Caps(g);
    restored := before;
    ghost var k := 0;
    var i := 0;
    while i < 3
      invariant 0 <= i <= 3 && |restored| == 3 && k == Total(blocksPerSeg, logs, i)
      invariant At(g, disk, start, k, kaddr, next, ofs)
      invariant forall l :: 0 <= l < i ==> RestoredFrom(before[l], logs[l], restored[l])
      invariant forall l :: i <= l < 3 ==> restored[l] == before[l]
    {
      var entries;
      entries, kaddr, next, ofs := ReadLog(g, disk, start, blocksPerSeg, before[i], kaddr, next, ofs, logs, i);
      restored := restored[i := before[i].(entries := entries)];
      k := k + Count(blocksPerSeg, logs[i]);
      i := i + 1;
    }
  }

  /** All entries of a log in SSR mode are the saved ones, and those before the offset of any other. */
  ghost predicate RestoredFrom(before: Log, saved: Log, r: Log) {
    && r == before.(entries := r.entries) && |r.entries| == |before.entries| == |saved.entries|
    && forall j :: 0 <= j < |r.entries| ==>
      r.entries[j] == if saved.ssr || j < saved.blkoff then saved.entries[j] else before.entries[j]
  }

  /** The first j entries are the saved ones, the others those from before. */
  ghost predicate Partly(entries: seq<Raw>, saved: seq<Raw>, before: seq<Raw>, j: nat) {
    && |entries| == |before| == |saved|
    && forall l :: 0 <= l < |entries| ==> entries[l] == if l < j then saved[l] else before[l]
  }

  /** One entry; the next block is taken as soon as this one has no room for another. */
  method ReadSummary(g: Sizes, disk: map<nat, Raw>, ghost start: nat, ghost k: nat, kaddr0: Raw, next0: nat, ofs0: nat, ghost saved: Raw)
    returns (s: Raw, kaddr: Raw, next: nat, ofs: nat)
    requires g.Valid() && 0 < g.Cap() && At(g, disk, start, k, kaddr0, next0, ofs0) && Stored(g, disk, start, k, saved)
    ensures s == saved && At(g, disk, start, k + 1, kaddr, next, ofs)
  {
    PlaceInside(g, k);
    PlaceNext(g, k);
    s := kaddr0[ofs0..ofs0 + g.entry];
    kaddr, next, ofs := kaddr0, next0, ofs0 + g.entry;
    if !(ofs + g.entry <= g.page - g.footer) {
      kaddr, next, ofs := MetaPage(g, disk, next), next + 1, 0;
    }
  }

  /** The inner loop for one log. */
  method ReadLog(g: Sizes, disk: map<nat, Raw>, ghost start: nat, blocksPerSeg: nat, log: Log, kaddr0: Raw, next0: nat, ofs0: nat,
                 ghost logs: seq<Log>, ghost i: nat)
    returns (entries: seq<Raw>, kaddr: Raw, next: nat, ofs: nat)
    requires g.Valid() && 0 < g.Cap() && LogsOk(g, blocksPerSeg, logs) && SavedAs(g, disk, start, blocksPerSeg, logs) && i < 3
    requires LogOk(g, blocksPerSeg, log) && log.ssr == logs[i].ssr && log.blkoff == logs[i].blkoff
    requires At(g, disk, start, Total(blocksPerSeg, logs, i), kaddr0, next0, ofs0)
    ensures At(g, disk, start, Total(blocksPerSeg, logs, i) + Count(blocksPerSeg, logs[i]), kaddr, next, ofs)
    ensures RestoredFrom(log, logs[i], log.(entries := entries))
  {
    entries, kaddr, next, ofs := log.entries, kaddr0, next0, ofs0;
    var n := if log.ssr then blocksPerSeg else log.blkoff;
    ghost var k := Total(blocksPerSeg, logs, i);
    assert LogOk(g, blocksPerSeg, logs[i]);
    var j := 0;
    while j < n
      invariant 0 <= j <= n && |entries| == |log.entries| && At(g, disk, start, k + j, kaddr, next, ofs)
      invariant Partly(entries, logs[i].entries, log.entries, j)
    {
      SavedEntry(g, blocksPerSeg, logs, i, j);
      var s;
      s, kaddr, next, ofs := ReadSummary(g, disk, start, k + j, kaddr, next, ofs, logs[i].entries[j]);
      entries := entries[j := s];
      j := j + 1;
    }
  }

  /** The reader is about to read entry k. */
  ghost predicate At(g: Sizes, disk: map<nat, Raw>, start: nat, k: nat, kaddr: Raw, next: nat, ofs: nat)
    requires g.Valid() && 0 < g.Cap()
  {
    && ofs == PlaceOf(g, k).ofs && next == start + PlaceOf(g, k).page + 1
    && kaddr == MetaPage(g, disk, start + PlaceOf(g, k).page)
  }
}
