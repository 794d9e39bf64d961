/** The list of free node ids and its counter (node.c), and what each lock-protected section does to it. */
module FreeNidPool {

  /** struct free_nid: NID_NEW can be given out, NID_ALLOC has been. */
  datatype Entry = Entry(nid: nat, isNew: bool)

  datatype Pool = Pool(list: seq<Entry>, fcnt: int)

  datatype Status = Absent | New | Alloc

  function CountNew(list: seq<Entry>): (n: nat)
    ensures n <= |list|
  {
    if list == [] then 0 else CountNew(list[..|list| - 1]) + (if list[|list| - 1].isNew then 1 else 0)
  }

  ghost predicate Nodup(list: seq<Entry>) {
    forall i, j :: 0 <= i < j < |list| ==> list[i].nid != list[j].nid
  }

  /** fcnt counts the NID_NEW entries; ids are distinct and not 0. */
  ghost predicate PoolOk(p: Pool) {
    && p.fcnt == CountNew(p.list) && Nodup(p.list)
    && forall i :: 0 <= i < |p.list| ==> p.list[i].nid != 0
  }

  ghost function StatusOf(p: Pool, n: nat): Status {
    if Entry(n, true) in p.list then New else if Entry(n, false) in p.list then Alloc else Absent
  }

  /** Only the status of n differs. */
  ghost predicate Becomes(p: Pool, q: Pool, n: nat, st: Status) {
    forall m: nat :: StatusOf(q, m) == if m == n then st else StatusOf(p, m)
  }

  function Find(list: seq<Entry>, n: nat): (i: nat)
    ensures i <= |list| && (i < |list| ==> list[i].nid == n)
    ensures forall k :: 0 <= k < i ==> list[k].nid != n
    decreases |list|
  {
    if list == [] then 0
    else
      var last := |list| - 1;
      var i := Find(list[..last], n);
      if i < last then i else if list[last].nid == n then last else |list|
  }

  function FirstNew(list: seq<Entry>): (i: nat)
    ensures i <= |list| && (i < |list| ==> list[i].isNew)
    ensures forall k :: 0 <= k < i ==> !list[k].isNew
  {
    if list == [] then 0
    else
      var last := |list| - 1;
      var i := FirstNew(list[..last]);
      if i < last then i else if list[last].isNew then last else |list|
  }

  lemma FindStatus(p: Pool, n: nat)
    requires PoolOk(p)
    ensures Find(p.list, n) == |p.list| <==> StatusOf(p, n) == Absent
    ensures Find(p.list, n) < |p.list| ==> StatusOf(p, n) == if p.list[Find(p.list, n)].isNew then New else Alloc
  {
    var i := Find(p.list, n);
    if i < |p.list| { assert p.list[i] in p.list; }
  }

  // ----- the five changes of the list -----

  function Without(list: seq<Entry>, i: nat): seq<Entry>
    requires i < |list|
  {
    list[..i] + list[i + 1..]
  }

  /** add_free_nid; `room` is twice MAX_FREE_NIDS. */
  function Inserted(p: Pool, room: int, n: nat): Pool {
    if p.fcnt > room || n == 0 || Find(p.list, n) < |p.list| then p else Pool(p.list + [Entry(n, true)], p.fcnt + 1)
  }

  /** remove_free_nid. */
  function Removed(p: Pool, n: nat): Pool {
    var i := Find(p.list, n);
    if i < |p.list| && p.list[i].isNew then Pool(Without(p.list, i), p.fcnt - 1) else p
  }

  /** The successful section of alloc_nid. */
  function Taken(p: Pool): Pool
    requires FirstNew(p.list) < |p.list|
  {
    var i := FirstNew(p.list);
    Pool(p.list[i := Entry(p.list[i].nid, false)], p.fcnt - 1)
  }

  /** alloc_nid_done. */
  function Finished(p: Pool, n: nat): Pool
    requires Find(p.list, n) < |p.list|
  {
    Pool(Without(p.list, Find(p.list, n)), p.fcnt)
  }

  /** alloc_nid_failed: back to the list, unless the list is too long already. */
  function Returned(p: Pool, room: int, n: nat): Pool
    requires Find(p.list, n) < |p.list|
  {
    var i := Find(p.list, n);
    if p.fcnt > room then Pool(Without(p.list, i), p.fcnt) else Pool(p.list[i := Entry(n, true)], p.fcnt + 1)
  }

  // ----- what they keep -----

  lemma CountAppend(list: seq<Entry>, e: Entry)
    ensures CountNew(list + [e]) == CountNew(list) + if e.isNew then 1 else 0
  {
    assert (list + [e])[..|list|] == list;
  }

  lemma {:induction false} CountUpdate(list: seq<Entry>, i: nat, e: Entry)
    requires i < |list|
    ensures CountNew(list[i := e]) == CountNew(list) + (if e.isNew then 1 else 0) - (if list[i].isNew then 1 else 0)
  {
    var last := |list| - 1;
    if i == last {
      assert list[i := e][..last] == list[..last];
    } else {
      assert list[i := e][..last] == list[..last][i := e];
      CountUpdate(list[..last], i, e);
    }
  }

  lemma {:induction false} CountWithout(list: seq<Entry>, i: nat)
    requires i < |list|
    ensures CountNew(Without(list, i)) == CountNew(list) - if list[i].isNew then 1 else 0
  {
    var last := |list| - 1;
    if i == last {
      assert Without(list, i) == list[..last];
    } else {
      assert Without(list, i)[..last - 1] == Without(list[..last], i);
      CountWithout(list[..last], i);
    }
  }

  lemma {:induction false} NoneNew(list: seq<Entry>)
    ensures CountNew(list) > 0 <==> FirstNew(list) < |list|
  {
    if list != [] { NoneNew(list[..|list| - 1]); }
  }

  lemma WithoutStatus(p: Pool, i: nat, fcnt: int)
    requires PoolOk(p) && i < |p.list|
    ensures Becomes(p, Pool(Without(p.list, i), fcnt), p.list[i].nid, Absent)
  {
    var w := Without(p.list, i);
    forall e: Entry ensures e in w <==> e in p.list && e.nid != p.list[i].nid {
      if e in p.list {
        var k :| 0 <= k < |p.list| && p.list[k] == e;
        if k < i { assert w[k] == e; } else if k > i { assert w[k - 1] == e; }
      }
    }
  }

  lemma UpdateStatus(p: Pool, i: nat, isNew: bool, fcnt: int)
    requires PoolOk(p) && i < |p.list|
    ensures Becomes(p, Pool(p.list[i := Entry(p.list[i].nid, isNew)], fcnt), p.list[i].nid, if isNew then New else Alloc)
  {
    var n := p.list[i].nid;
    var w := p.list[i := Entry(n, isNew)];
    assert w[i] == Entry(n, isNew);
    forall e: Entry ensures e in w <==> e == Entry(n, isNew) || (e in p.list && e.nid != n) {
      if e in p.list {
        var k :| 0 <= k < |p.list| && p.list[k] == e;
        if k != i { assert w[k] == e; }
      }
    }
  }

  lemma AppendStatus(p: Pool, n: nat)
    ensures StatusOf(p, n) == Absent ==> Becomes(p, Pool(p.list + [Entry(n, true)], p.fcnt + 1), n, New)
    ensures Becomes(p, p, n, StatusOf(p, n))
  {
  }

  lemma {:induction false} InsertedOk(p: Pool, room: int, n: nat)
    requires PoolOk(p)
    ensures PoolOk(Inserted(p, room, n))
    ensures Becomes(p, Inserted(p, room, n), n,
                    if p.fcnt <= room && n != 0 && StatusOf(p, n) == Absent then New else StatusOf(p, n))
  {
    FindStatus(p, n);
    CountAppend(p.list, Entry(n, true));
    AppendStatus(p, n);
  }

  lemma {:induction false} RemovedOk(p: Pool, n: nat)
    requires PoolOk(p)
    ensures PoolOk(Removed(p, n))
    ensures Becomes(p, Removed(p, n), n, if StatusOf(p, n) == New then Absent else StatusOf(p, n))
  {
    FindStatus(p, n);
    var i := Find(p.list, n);
    if i < |p.list| {
      CountWithout(p.list, i);
      WithoutStatus(p, i, p.fcnt - 1);
    }
  }

  /** The id given out was NID_NEW; there is one exactly when fcnt is not 0. */
  lemma {:induction false} TakenOk(p: Pool)
    requires PoolOk(p) && p.fcnt != 0
    ensures FirstNew(p.list) < |p.list|
    ensures PoolOk(Taken(p)) && StatusOf(p, p.list[FirstNew(p.list)].nid) == New
    ensures Becomes(p, Taken(p), p.list[FirstNew(p.list)].nid, Alloc)
  {
    NoneNew(p.list);
    var i := FirstNew(p.list);
    CountUpdate(p.list, i, Entry(p.list[i].nid, false));
    UpdateStatus(p, i, false, p.fcnt - 1);
    assert p.list[i] in p.list;
  }

  lemma {:induction false} FinishedOk(p: Pool, n: nat)
    requires PoolOk(p) && StatusOf(p, n) == Alloc
    ensures Find(p.list, n) < |p.list| && PoolOk(Finished(p, n)) && Becomes(p, Finished(p, n), n, Absent)
  {
    FindStatus(p, n);
    CountWithout(p.list, Find(p.list, n));
    WithoutStatus(p, Find(p.list, n), p.fcnt);
  }

  lemma {:induction false} ReturnedOk(p: Pool, room: int, n: nat)
    requires PoolOk(p) && StatusOf(p, n) == Alloc
    ensures Find(p.list, n) < |p.list| && PoolOk(Returned(p, room, n))
    ensures Becomes(p, Returned(p, room, n), n, if p.fcnt > room then Absent else New)
  {
    FindStatus(p, n);
    var i := Find(p.list, n);
    CountWithout(p.list, i);
    CountUpdate(p.list, i, Entry(n, true));
    WithoutStatus(p, i, p.fcnt);
    UpdateStatus(p, i, true, p.fcnt + 1);
  }
}
