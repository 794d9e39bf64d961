/** The packed list of extended attributes (xattr.h): entries one after another, ended by a zero word. */
module XattrFormat {
  import opened Bytes

  /** sizeof(struct f2fs_xattr_header) and sizeof(struct f2fs_xattr_entry). */
  const HEADER: nat := 24
  const FIXED: nat := 4

  /** An attribute: its name index, name and value. */
  datatype Entry = Entry(index: Byte, name: seq<Byte>, value: seq<Byte>)

  datatype Key = Key(index: Byte, name: seq<Byte>)

  function KeyOf(e: Entry): Key { Key(e.index, e.name) }

  /** What fits the fields of an entry; index 0 belongs to no handler and would read as the terminator. */
  predicate EntryOk(e: Entry) { 0 < e.index && |e.name| < 256 && |e.value| < 0x1_0000 }

  /** XATTR_ALIGN. */
  function Align(x: nat): (r: nat)
    ensures x <= r < x + 4 && r % 4 == 0
  {
    (x + 3) / 4 * 4
  }

  function Low(n: nat): Byte { n % 256 }

  /** ENTRY_SIZE. */
  function Size(e: Entry): (n: nat)
    ensures FIXED + |e.name| + |e.value| <= n && n % 4 == 0
  {
    Align(FIXED + |e.name| + |e.value|)
  }

  /** An entry as bytes. */
  function BytesOf(e: Entry): (b: seq<Byte>)
    ensures |b| == Size(e)
  {
    [e.index, Low(|e.name|), Low(|e.value|), Low(|e.value| / 256)] + e.name + e.value
    + Zeros(Size(e) - FIXED - |e.name| - |e.value|)
  }

  function Encode(es: seq<Entry>): (b: seq<Byte>) {
    if es == [] then [] else Encode(es[..|es| - 1]) + BytesOf(es[|es| - 1])
  }

  lemma EncodeEnd(es: seq<Entry>, e: Entry)
    ensures Encode(es + [e]) == Encode(es) + BytesOf(e)
  {
    assert (es + [e])[..|es|] == es;
  }

  lemma Regroup(a: seq<Byte>, b: seq<Byte>, c: seq<Byte>)
    ensures (a + b) + c == a + (b + c)
  {
  }

  lemma {:induction false} EncodeCat(xs: seq<Entry>, ys: seq<Entry>)
    ensures Encode(xs + ys) == Encode(xs) + Encode(ys)
  {
    if ys == [] {
      assert xs + ys == xs;
    } else {
      var n := |ys| - 1;
      EncodeCat(xs, ys[..n]);
      assert xs + ys == (xs + ys[..n]) + [ys[n]];
      EncodeEnd(xs + ys[..n], ys[n]);
      Regroup(Encode(xs), Encode(ys[..n]), BytesOf(ys[n]));
    }
  }

  lemma EncodeOne(e: Entry)
    ensures Encode([e]) == BytesOf(e)
  {
    assert [e][..0] == [];
  }

  /** The bytes before, of, and after entry k. */
  lemma {:induction false} EncodeAround(es: seq<Entry>, k: nat)
    requires k < |es|
    ensures Encode(es) == Encode(es[..k]) + BytesOf(es[k]) + Encode(es[k + 1..])
    ensures Encode(es[..k + 1]) == Encode(es[..k]) + BytesOf(es[k])
    ensures Encode(es[..k] + es[k + 1..]) == Encode(es[..k]) + Encode(es[k + 1..])
  {
    assert es[..k + 1] == es[..k] + [es[k]];
    assert es == es[..k + 1] + es[k + 1..];
    EncodeOne(es[k]);
    EncodeCat(es[..k], [es[k]]);
    EncodeCat(es[..k + 1], es[k + 1..]);
    EncodeCat(es[..k], es[k + 1..]);
  }

  /** Byte i of the list, zero past its end. */
  function ByteAt(es: seq<Entry>, i: nat): Byte {
    if i < |Encode(es)| then Encode(es)[i] else 0
  }

  /** Where entry k begins, and, for k == |es|, where the terminator is. */
  function Offset(es: seq<Entry>, k: nat): (o: nat)
    requires k <= |es|
    ensures HEADER <= o
  {
    HEADER + |Encode(es[..k])|
  }

  lemma SumAligned(a: nat, b: nat)
    requires a % 4 == 0 && b % 4 == 0
    ensures (a + b) % 4 == 0
  {
  }

  /** Entries stay 4-byte aligned. */
  lemma {:induction false} OffsetAligned(es: seq<Entry>, k: nat)
    requires k <= |es|
    ensures Offset(es, k) % 4 == 0
  {
    if k > 0 {
      OffsetAligned(es, k - 1);
      OffsetStep(es, k - 1);
      SumAligned(Offset(es, k - 1), Size(es[k - 1]));
    }
  }

  lemma {:induction false} OffsetStep(es: seq<Entry>, k: nat)
    requires k < |es|
    ensures Offset(es, k + 1) == Offset(es, k) + Size(es[k]) && Offset(es, k + 1) <= Offset(es, |es|)
  {
    EncodeAround(es, k);
    assert es[..|es|] == es;
  }

  lemma {:induction false} BytesAt(es: seq<Entry>, k: nat, j: nat)
    requires k < |es| && j < Size(es[k])
    ensures ByteAt(es, Offset(es, k) - HEADER + j) == BytesOf(es[k])[j]
  {
    EncodeAround(es, k);
  }

  ghost predicate Distinct(es: seq<Entry>) {
    forall i, j :: 0 <= i < j < |es| ==> KeyOf(es[i]) != KeyOf(es[j])
  }

  ghost predicate AllOk(es: seq<Entry>) {
    forall i :: 0 <= i < |es| ==> EntryOk(es[i])
  }

  /** Bytes HEADER .. limit + 4 hold the list, then only zeros: the terminator is there even when the list is full. */
  ghost predicate Holds(s: seq<Byte>, es: seq<Entry>, limit: nat) {
    && AllOk(es) && Distinct(es)
    && Offset(es, |es|) <= limit && limit + 4 <= |s|
    && forall k :: HEADER <= k < limit + 4 ==> s[k] == ByteAt(es, k - HEADER)
  }

  // ----- the list as a map -----

  function Attrs(es: seq<Entry>): map<Key, seq<Byte>> {
    if es == [] then map[] else Attrs(es[..|es| - 1])[KeyOf(es[|es| - 1]) := es[|es| - 1].value]
  }

  lemma {:induction false} AttrsIn(es: seq<Entry>, k: nat)
    requires Distinct(es) && k < |es|
    ensures KeyOf(es[k]) in Attrs(es) && Attrs(es)[KeyOf(es[k])] == es[k].value
  {
    if k < |es| - 1 { AttrsIn(es[..|es| - 1], k); }
  }

  lemma {:induction false} AttrsOut(es: seq<Entry>, key: Key)
    requires forall i :: 0 <= i < |es| ==> KeyOf(es[i]) != key
    ensures key !in Attrs(es)
  {
    if es != [] { AttrsOut(es[..|es| - 1], key); }
  }

  function Without(es: seq<Entry>, k: nat): seq<Entry> {
    if k < |es| then es[..k] + es[k + 1..] else es
  }

  lemma AttrsWith(es: seq<Entry>, e: Entry)
    ensures Attrs(es + [e]) == Attrs(es)[KeyOf(e) := e.value]
  {
    assert (es + [e])[..|es|] == es;
  }

  lemma WithoutInit(es: seq<Entry>, k: nat)
    requires k < |es| - 1
    ensures Without(es, k) == Without(es[..|es| - 1], k) + [es[|es| - 1]]
  {
  }

  lemma {:induction false} AttrsWithout(es: seq<Entry>, k: nat)
    requires Distinct(es) && k < |es|
    ensures Attrs(Without(es, k)) == Attrs(es) - {KeyOf(es[k])}
  {
    var n := |es| - 1;
    if k == n {
      assert Without(es, k) == es[..n];
      AttrsOut(es[..n], KeyOf(es[n]));
    } else {
      AttrsWithout(es[..n], k);
      WithoutInit(es, k);
      AttrsWith(Without(es[..n], k), es[n]);
      Exchange(Attrs(es[..n]), KeyOf(es[k]), KeyOf(es[n]), es[n].value);
    }
  }

  lemma Exchange(m: map<Key, seq<Byte>>, gone: Key, key: Key, value: seq<Byte>)
    requires gone != key
    ensures (m - {gone})[key := value] == m[key := value] - {gone}
  {
  }

  lemma WithoutOk(es: seq<Entry>, k: nat)
    requires AllOk(es) && Distinct(es)
    ensures AllOk(Without(es, k)) && Distinct(Without(es, k))
    ensures forall i :: k < |es| && 0 <= i < |Without(es, k)| ==> KeyOf(Without(es, k)[i]) != KeyOf(es[k])
  {
  }

  // ----- reading an entry back -----

  /** A little-endian 16-bit number. */
  function Word(lo: Byte, hi: Byte): (n: nat) {
    var l: int, h: int := lo, hi;
    l + 256 * h
  }

  /** ENTRY_SIZE as read from the bytes at pos. */
  function ReadSize(s: seq<Byte>, pos: nat): nat
    requires pos + FIXED <= |s|
  {
    Align(FIXED + s[pos + 1] + Word(s[pos + 2], s[pos + 3]))
  }

  /** IS_XATTR_LAST_ENTRY. */
  predicate IsLast(s: seq<Byte>, pos: nat)
    requires pos + FIXED <= |s|
  {
    s[pos] == 0 && s[pos + 1] == 0 && s[pos + 2] == 0 && s[pos + 3] == 0
  }

  predicate NameMatches(s: seq<Byte>, pos: nat, index: Byte, name: seq<Byte>)
    requires pos + FIXED <= |s|
  {
    && s[pos] == index && s[pos + 1] == |name|
    && pos + FIXED + |name| <= |s| && s[pos + FIXED..pos + FIXED + |name|] == name
  }

  lemma {:induction false} EntryFits(es: seq<Entry>, k: nat, limit: nat)
    requires k < |es| && Offset(es, |es|) <= limit
    ensures Offset(es, k) + Size(es[k]) == Offset(es, k + 1) <= limit
  {
    OffsetStep(es, k);
  }

  /** The fixed part of entry k says its size, and it is not the terminator. */
  lemma FixedBytes(e: Entry)
    requires EntryOk(e)
    ensures FIXED <= Size(e)
    ensures BytesOf(e)[0] == e.index && BytesOf(e)[1] == |e.name| && Word(BytesOf(e)[2], BytesOf(e)[3]) == |e.value|
  {
  }

  lemma {:induction false} ReadEntry(s: seq<Byte>, es: seq<Entry>, limit: nat, k: nat)
    requires Holds(s, es, limit) && k < |es|
    ensures Offset(es, k) + Size(es[k]) <= limit && FIXED <= Size(es[k])
    ensures ReadSize(s, Offset(es, k)) == Size(es[k]) && !IsLast(s, Offset(es, k))
    ensures s[Offset(es, k)] == es[k].index && s[Offset(es, k) + 1] == |es[k].name|
    ensures Word(s[Offset(es, k) + 2], s[Offset(es, k) + 3]) == |es[k].value|
  {
    EntryFits(es, k, limit);
    BytesAt(es, k, 0);
    BytesAt(es, k, 1);
    BytesAt(es, k, 2);
    BytesAt(es, k, 3);
    FixedBytes(es[k]);
  }

  lemma {:induction false} ReadName(s: seq<Byte>, es: seq<Entry>, limit: nat, k: nat)
    requires Holds(s, es, limit) && k < |es|
    ensures Offset(es, k) + FIXED + |es[k].name| + |es[k].value| <= |s|
    ensures s[Offset(es, k) + FIXED..Offset(es, k) + FIXED + |es[k].name|] == es[k].name
    ensures s[Offset(es, k) + FIXED + |es[k].name|..Offset(es, k) + FIXED + |es[k].name| + |es[k].value|] == es[k].value
  {
    EntryFits(es, k, limit);
    var o, e := Offset(es, k), es[k];
    forall j: nat | j < |e.name| ensures s[o + FIXED + j] == e.name[j] {
      BytesAt(es, k, FIXED + j);
    }
    forall j: nat | j < |e.value| ensures s[o + FIXED + |e.name| + j] == e.value[j] {
      BytesAt(es, k, FIXED + |e.name| + j);
    }
  }

  lemma ReadMatch(s: seq<Byte>, es: seq<Entry>, limit: nat, k: nat, index: Byte, name: seq<Byte>)
    requires Holds(s, es, limit) && k < |es|
    ensures Offset(es, k) + FIXED <= |s|
    ensures NameMatches(s, Offset(es, k), index, name) <==> KeyOf(es[k]) == Key(index, name)
  {
    ReadEntry(s, es, limit, k);
    ReadName(s, es, limit, k);
  }

  lemma ReadLast(s: seq<Byte>, es: seq<Entry>, limit: nat)
    requires Holds(s, es, limit)
    ensures Offset(es, |es|) + FIXED <= |s| && IsLast(s, Offset(es, |es|))
  {
    assert es[..|es|] == es;
  }
}
