/** Finding, removing and writing attributes inside one buffer (xattr.c). */
module XattrBuffer {
  import opened Bytes
  import opened XattrFormat

  datatype Option<T> = None | Some(value: T)

  // ----- memmove, memset and memcpy -----

  method MemMove(a: array<Byte>, dst: nat, src: nat, n: nat)
    requires dst <= src && src + n <= a.Length
    modifies a
    ensures forall k :: 0 <= k < a.Length ==> a[k] == if dst <= k < dst + n then old(a[k - dst + src]) else old(a[k])
  {
    var i := 0;
    while i < n
      invariant 0 <= i <= n
      invariant forall k :: 0 <= k < a.Length ==> a[k] == if dst <= k < dst + i then old(a[k - dst + src]) else old(a[k])
    {
      a[dst + i] := a[src + i];
      i := i + 1;
    }
  }

  method MemZero(a: array<Byte>, pos: nat, n: nat)
    requires pos + n <= a.Length
    modifies a
    ensures forall k :: 0 <= k < a.Length ==> a[k] == if pos <= k < pos + n then 0 else old(a[k])
  {
    var i := 0;
    while i < n
      invariant 0 <= i <= n
      invariant forall k :: 0 <= k < a.Length ==> a[k] == if pos <= k < pos + i then 0 else old(a[k])
    {
      a[pos + i] := 0;
      i := i + 1;
    }
  }

  method MemCopy(a: array<Byte>, pos: nat, b: seq<Byte>)
    requires pos + |b| <= a.Length
    modifies a
    ensures forall k :: 0 <= k < a.Length ==> a[k] == if pos <= k < pos + |b| then b[k - pos] else old(a[k])
  {
    var i := 0;
    while i < |b|
      invariant 0 <= i <= |b|
      invariant forall k :: 0 <= k < a.Length ==> a[k] == if pos <= k < pos + i then b[k - pos] else old(a[k])
    {
      a[pos + i] := b[i];
      i := i + 1;
    }
  }

  // ----- searching -----

  /** The first entry with the key, or |es| when there is none. */
  ghost predicate FirstMatch(es: seq<Entry>, key: Key, k: nat) {
    && k <= |es|
    && (forall i :: 0 <= i < k ==> KeyOf(es[i]) != key)
    && (k < |es| ==> KeyOf(es[k]) == key)
  }

  /** __find_xattr: the entry with that name, or the terminator. */
  method FindXattr(a: array<Byte>, index: Byte, name: seq<Byte>, limit: nat, ghost es: seq<Entry>)
    returns (pos: nat, ghost k: nat)
    requires Holds(a[..], es, limit)
    ensures FirstMatch(es, Key(index, name), k) && pos == Offset(es, k)
    ensures pos + FIXED <= a.Length && (IsLast(a[..], pos) <==> k == |es|)
  {
    pos, k := HEADER, 0;
    PositionRead(a[..], es, limit, 0);
    while !IsLast(a[..], pos)
      invariant k <= |es| && pos == Offset(es, k) && pos + FIXED <= a.Length
      invariant IsLast(a[..], pos) <==> k == |es|
      invariant forall i :: 0 <= i < k ==> KeyOf(es[i]) != Key(index, name)
      decreases |es| - k
    {
      ReadMatch(a[..], es, limit, k, index, name);
      if NameMatches(a[..], pos, index, name) { return; }
      ReadEntry(a[..], es, limit, k);
      OffsetStep(es, k);
      pos, k := pos + ReadSize(a[..], pos), k + 1;
      PositionRead(a[..], es, limit, k);
    }
  }

  lemma PositionRead(s: seq<Byte>, es: seq<Entry>, limit: nat, k: nat)
    requires Holds(s, es, limit) && k <= |es|
    ensures Offset(es, k) + FIXED <= |s| && (IsLast(s, Offset(es, k)) <==> k == |es|)
    ensures Offset(es, 0) == HEADER
  {
    if k < |es| { ReadEntry(s, es, limit, k); } else { ReadLast(s, es, limit); }
  }

  /** The loop that runs on to the terminator. */
  method FindLast(a: array<Byte>, pos: nat, limit: nat, ghost es: seq<Entry>, ghost k: nat) returns (last: nat)
    requires Holds(a[..], es, limit) && k <= |es| && pos == Offset(es, k)
    ensures last == Offset(es, |es|)
  {
    last := pos;
    ghost var i := k;
    PositionRead(a[..], es, limit, k);
    while !IsLast(a[..], last)
      invariant i <= |es| && last == Offset(es, i) && last + FIXED <= a.Length
      invariant IsLast(a[..], last) <==> i == |es|
      decreases |es| - i
    {
      ReadEntry(a[..], es, limit, i);
      OffsetStep(es, i);
      last, i := last + ReadSize(a[..], last), i + 1;
      PositionRead(a[..], es, limit, i);
    }
  }

  // ----- removing -----

  lemma {:induction false} WithoutBytes(es: seq<Entry>, k: nat, i: nat)
    requires k < |es|
    ensures ByteAt(Without(es, k), i) == ByteAt(es, if i < Offset(es, k) - HEADER then i else i + Size(es[k]))
  {
    EncodeAround(es, k);
  }

  lemma WithoutOffset(es: seq<Entry>, k: nat)
    requires k < |es|
    ensures Offset(Without(es, k), |Without(es, k)|) == Offset(es, |es|) - Size(es[k])
  {
    EncodeAround(es, k);
    assert es[..|es|] == es && Without(es, k)[..|Without(es, k)|] == Without(es, k);
  }

  /** The bytes before `here` stay, those behind the entry move up, and the end is zeroed. */
  ghost predicate MovedUp(before: seq<Byte>, after: seq<Byte>, here: nat, size: nat, last: nat) {
    && |after| == |before| && here + size <= last <= |before|
    && (forall k :: 0 <= k < here || last <= k < |after| ==> after[k] == before[k])
    && (forall k :: here <= k < last - size ==> after[k] == before[k + size])
    && (forall k :: last - size <= k < last ==> after[k] == 0)
  }

  lemma PastEnd(es: seq<Entry>, i: nat)
    ensures i >= Offset(es, |es|) - HEADER ==> ByteAt(es, i) == 0
  {
    assert es[..|es|] == es;
  }

  lemma {:induction false} MovedUpByte(before: seq<Byte>, after: seq<Byte>, es: seq<Entry>, k: nat, limit: nat, j: nat)
    requires k < |es| && HEADER <= j < limit + 4 <= |before| && Offset(es, |es|) <= limit
    requires before[j] == ByteAt(es, j - HEADER)
    requires j + Size(es[k]) < limit + 4 ==> before[j + Size(es[k])] == ByteAt(es, j + Size(es[k]) - HEADER)
    requires MovedUp(before, after, Offset(es, k), Size(es[k]), Offset(es, |es|))
    ensures after[j] == ByteAt(Without(es, k), j - HEADER)
  {
    var size, last := Size(es[k]), Offset(es, |es|);
    WithoutBytes(es, k, j - HEADER);
    if j >= last - size { PastEnd(es, j - HEADER + size); }
    if j >= last { PastEnd(es, j - HEADER); }
  }

  lemma HeldByte(s: seq<Byte>, es: seq<Entry>, limit: nat, j: nat)
    requires Holds(s, es, limit) && HEADER <= j < limit + 4
    ensures s[j] == ByteAt(es, j - HEADER)
  {
  }

  lemma {:induction false} MovedUpHolds(before: seq<Byte>, after: seq<Byte>, es: seq<Entry>, k: nat, limit: nat)
    requires Holds(before, es, limit) && k < |es|
    requires MovedUp(before, after, Offset(es, k), Size(es[k]), Offset(es, |es|))
    ensures Holds(after, Without(es, k), limit)
  {
    WithoutOk(es, k);
    WithoutOffset(es, k);
    forall j | HEADER <= j < limit + 4 ensures after[j] == ByteAt(Without(es, k), j - HEADER) {
      HeldByte(before, es, limit, j);
      if j + Size(es[k]) < limit + 4 { HeldByte(before, es, limit, j + Size(es[k])); }
      MovedUpByte(before, after, es, k, limit, j);
    }
  }

  method MoveUp(a: array<Byte>, here: nat, size: nat, last: nat)
    requires here + size <= last <= a.Length
    modifies a
    ensures MovedUp(old(a[..]), a[..], here, size, last)
  {
    ghost var before := a[..];
    MemMove(a, here, here + size, last - (here + size));
    assert forall k :: here <= k < last - size ==> a[k] == before[k + size];
    MemZero(a, last - size, size);
  }

  /** Removing the entry at `here`. */
  method RemoveEntry(a: array<Byte>, here: nat, last: nat, limit: nat, ghost es: seq<Entry>, ghost k: nat) returns (last': nat)
    requires Holds(a[..], es, limit) && k < |es| && here == Offset(es, k) && last == Offset(es, |es|)
    modifies a
    ensures Holds(a[..], Without(es, k), limit) && last' == Offset(Without(es, k), |Without(es, k)|)
  {
    ReadEntry(a[..], es, limit, k);
    OffsetStep(es, k);
    WithoutOffset(es, k);
    ghost var before := a[..];
    var oldsize := ReadSize(a[..], here);
    MoveUp(a, here, oldsize, last);
    last' := last - oldsize;
    MovedUpHolds(before, a[..], es, k, limit);
  }

  // ----- writing -----

  lemma {:induction false} WithBytes(es: seq<Entry>, e: Entry, i: nat)
    ensures ByteAt(es + [e], i) ==
      if i < |Encode(es)| then ByteAt(es, i) else if i < |Encode(es)| + Size(e) then BytesOf(e)[i - |Encode(es)|] else 0
  {
    EncodeEnd(es, e);
  }

  lemma WithOffset(es: seq<Entry>, e: Entry)
    ensures Offset(es + [e], |es + [e]|) == Offset(es, |es|) + Size(e)
  {
    EncodeEnd(es, e);
    assert es[..|es|] == es && (es + [e])[..|es + [e]|] == es + [e];
  }

  ghost predicate WrittenAt(before: seq<Byte>, after: seq<Byte>, last: nat, b: seq<Byte>) {
    && |after| == |before| && last + |b| <= |before|
    && forall k :: 0 <= k < |after| ==> after[k] == if last <= k < last + |b| then b[k - last] else before[k]
  }

  lemma {:induction false} WrittenHolds(before: seq<Byte>, after: seq<Byte>, es: seq<Entry>, e: Entry, limit: nat)
    requires Holds(before, es, limit) && EntryOk(e) && Offset(es, |es|) + Size(e) <= limit
    requires forall i :: 0 <= i < |es| ==> KeyOf(es[i]) != KeyOf(e)
    requires WrittenAt(before, after, Offset(es, |es|), BytesOf(e))
    ensures Holds(after, es + [e], limit)
  {
    WithOffset(es, e);
    assert es[..|es|] == es;
    forall j | HEADER <= j < limit + 4 ensures after[j] == ByteAt(es + [e], j - HEADER) {
      PastEnd(es, j - HEADER);
      WithBytes(es, e, j - HEADER);
    }
  }

  /** The fields of an entry, written one after another over zeros, are its bytes. */
  method WriteEntry(a: array<Byte>, last: nat, e: Entry)
    requires EntryOk(e) && last + Size(e) <= a.Length
    modifies a
    ensures WrittenAt(old(a[..]), a[..], last, BytesOf(e))
  {
    MemZero(a, last, Size(e));
    a[last], a[last + 1] := e.index, Low(|e.name|);
    MemCopy(a, last + FIXED, e.name);
    MemCopy(a, last + FIXED + |e.name|, e.value);
    a[last + 2], a[last + 3] := Low(|e.value|), Low(|e.value| / 256);
    forall k | last <= k < last + Size(e) ensures a[k] == BytesOf(e)[k - last] { EntryByte(e, k - last); }
  }

  /** Where the parts of an entry lie. */
  lemma EntryByte(e: Entry, j: nat)
    requires EntryOk(e) && j < Size(e)
    ensures BytesOf(e)[j] ==
      if j == 0 then e.index else if j == 1 then Low(|e.name|)
      else if j == 2 then Low(|e.value|) else if j == 3 then Low(|e.value| / 256)
      else if j < FIXED + |e.name| then e.name[j - FIXED]
      else if j < FIXED + |e.name| + |e.value| then e.value[j - FIXED - |e.name|] else 0
  {
  }

  /** Writing a new entry at the end. */
  method AppendEntry(a: array<Byte>, last: nat, limit: nat, e: Entry, ghost es: seq<Entry>)
    requires Holds(a[..], es, limit) && last == Offset(es, |es|) && last + Size(e) <= limit
    requires EntryOk(e) && forall i :: 0 <= i < |es| ==> KeyOf(es[i]) != KeyOf(e)
    modifies a
    ensures Holds(a[..], es + [e], limit)
  {
    ghost var before := a[..];
    WriteEntry(a, last, e);
    WrittenHolds(before, a[..], es, e, limit);
  }

  // ----- the two operations on the buffer -----

  /** What the entries become: the old entry of that name goes, and a new one comes last. */
  function Updated(es: seq<Entry>, k: nat, key: Key, value: Option<seq<Byte>>): seq<Entry> {
    if value.None? then Without(es, k) else Without(es, k) + [Entry(key.index, key.name, value.value)]
  }

  lemma {:induction false} UpdatedAttrs(es: seq<Entry>, k: nat, key: Key, value: Option<seq<Byte>>)
    requires Distinct(es) && FirstMatch(es, key, k)
    ensures Attrs(Updated(es, k, key, value)) == if value.None? then Attrs(es) - {key} else Attrs(es)[key := value.value]
  {
    AttrsOut(es[..k], key);
    if k < |es| { AttrsWithout(es, k); } else { AttrsOut(es, key); assert Attrs(es) - {key} == Attrs(es); }
    if value.Some? {
      AttrsWith(Without(es, k), Entry(key.index, key.name, value.value));
      assert (Attrs(es) - {key})[key := value.value] == Attrs(es)[key := value.value];
    }
  }

  /** Bytes used after the update. */
  function UsedAfter(es: seq<Entry>, k: nat, key: Key, value: Option<seq<Byte>>): nat {
    var es' := Updated(es, k, key, value);
    Offset(es', |es'|)
  }

  lemma {:induction false} UsedAfterIs(es: seq<Entry>, k: nat, key: Key, value: Option<seq<Byte>>)
    requires FirstMatch(es, key, k)
    ensures UsedAfter(es, k, key, value) == Offset(es, |es|) - (if k < |es| then Size(es[k]) else 0)
      + (if value.None? then 0 else Size(Entry(key.index, key.name, value.value)))
  {
    if k < |es| { WithoutOffset(es, k); }
    if value.Some? { WithOffset(Without(es, k), Entry(key.index, key.name, value.value)); }
  }

  /** Step 1: is there room for an entry of `newsize` bytes once the old one is gone? */
  method HasRoom(a: array<Byte>, limit: nat, here: nat, last: nat, newsize: nat, ghost es: seq<Entry>, ghost k: nat)
    returns (room: bool)
    requires Holds(a[..], es, limit) && k <= |es| && here == Offset(es, k) && last == Offset(es, |es|)
    ensures room == (last - (if k < |es| then Size(es[k]) else 0) + newsize <= limit)
  {
    PositionRead(a[..], es, limit, k);
    var free := limit - last;
    if !IsLast(a[..], here) {
      ReadEntry(a[..], es, limit, k);
      free := free + ReadSize(a[..], here);
    }
    room := !(free < newsize);
  }

  /** Steps 2 and 3: the old entry goes, and the new one is written at the end. */
  method Replace(a: array<Byte>, limit: nat, here: nat, last0: nat, key: Key, value: Option<seq<Byte>>, ghost es: seq<Entry>, ghost k: nat)
    returns (hsize: nat)
    requires Holds(a[..], es, limit) && FirstMatch(es, key, k) && here == Offset(es, k) && last0 == Offset(es, |es|)
    requires 0 < key.index && |key.name| < 256 && (value.Some? ==> |value.value| < 0x1_0000)
    requires UsedAfter(es, k, key, value) <= limit
    modifies a
    ensures Holds(a[..], Updated(es, k, key, value), limit) && hsize == UsedAfter(es, k, key, value)
  {
    PositionRead(a[..], es, limit, k);
    WithoutOk(es, k);
    hsize := last0;
    if !IsLast(a[..], here) {
      hsize := RemoveEntry(a, here, last0, limit, es, k);
    }
    if value.Some? {
      ghost var rest := Without(es, k);
      var e := Entry(key.index, key.name, value.value);
      WithOffset(rest, e);
      AppendEntry(a, hsize, limit, e, rest);
      hsize := hsize + Size(e);
    }
  }

  /** The buffer part of __f2fs_setxattr. */
  method SetInBuffer(a: array<Byte>, limit: nat, key: Key, value: Option<seq<Byte>>, ghost es: seq<Entry>)
    returns (noSpace: bool, hsize: nat, ghost k: nat)
    requires Holds(a[..], es, limit) && 0 < key.index && |key.name| < 256 && (value.Some? ==> |value.value| < 0x1_0000)
    modifies a
    ensures FirstMatch(es, key, k)
    ensures noSpace == (value.Some? && UsedAfter(es, k, key, value) > limit)
    ensures noSpace ==> a[..] == old(a[..])
    ensures !noSpace ==> Holds(a[..], Updated(es, k, key, value), limit) && hsize == UsedAfter(es, k, key, value)
  {
    noSpace, hsize := false, 0;
    var here;
    here, k := FindXattr(a, key.index, key.name, limit, es);
    var last := FindLast(a, here, limit, es, k);
    UsedAfterIs(es, k, key, value);
    if value.Some? {
      var room := HasRoom(a, limit, here, last, Align(FIXED + |key.name| + |value.value|), es, k);
      if !room { return true, 0, k; }
    }
    hsize := Replace(a, limit, here, last, key, value, es, k);
  }

  /** f2fs_getxattr's answers: -ENODATA, -ERANGE, or the size and, when there is a buffer, the value. */
  datatype Answer = NoData | Range | Got(size: nat, copied: Option<seq<Byte>>)

  /** The buffer part of f2fs_getxattr, against the list as a map. */
  method GetFromBuffer(a: array<Byte>, limit: nat, key: Key, bufferSize: Option<nat>, ghost es: seq<Entry>)
    returns (r: Answer)
    requires Holds(a[..], es, limit)
    ensures key !in Attrs(es) ==> r == NoData
    ensures key in Attrs(es) && bufferSize.Some? && |Attrs(es)[key]| > bufferSize.value ==> r == Range
    ensures key in Attrs(es) && bufferSize.None? ==> r == Got(|Attrs(es)[key]|, None)
    ensures key in Attrs(es) && bufferSize.Some? && |Attrs(es)[key]| <= bufferSize.value ==>
      r == Got(|Attrs(es)[key]|, Some(Attrs(es)[key]))
  {
    var pos, k := FindXattr(a, key.index, key.name, limit, es);
    if IsLast(a[..], pos) {
      AttrsOut(es, key);
      return NoData;
    }
    AttrsIn(es, k);
    ReadEntry(a[..], es, limit, k);
    ReadName(a[..], es, limit, k);
    var valueLen := Word(a[pos + 2], a[pos + 3]);
    if bufferSize.Some? && valueLen > bufferSize.value { return Range; }
    var val := pos + FIXED + a[pos + 1];
    r := Got(valueLen, if bufferSize.Some? then Some(a[val..val + valueLen]) else None);
  }
}
