/**
 * Searching a validity bitmap a word at a time (segment.c).  f2fs_set_bit numbers the bits of a byte from
 * the top, so the search in a 64-bit little-endian word runs through the bytes upwards and through each
 * byte downwards.
 */
module RevBits {
  import opened Bitmaps
  import opened Geometry

  const ONES: bv64 := 0xffff_ffff_ffff_ffff

  /** Bit j of a word in that numbering. */
  predicate Bit(w: bv64, j: bv64) {
    j < 64 && (w >> (j ^ 7)) & 1 == 1
  }

  /** f2fs_set_bit: the mask in its byte, and that byte of the word. */
  function SetBit(w: bv64, j: bv64): bv64
    requires j < 64
  {
    w | ((1 << (7 - (j & 7))) << ((j >> 3) << 3))
  }

  lemma SetBitSets(w: bv64, j: bv64)
    requires j < 64
    ensures Bit(SetBit(w, j), j)
  {
  }

  lemma SetBitKeeps(w: bv64, j: bv64, k: bv64)
    requires j < 64 && k < 64 && k != j
    ensures Bit(SetBit(w, j), k) == Bit(w, k)
  {
  }

  /** __reverse_ffs. */
  function ReverseFfs(w: bv64): (num: bv64) {
    var n0: bv64, w0: bv64 := if w & 0xffff_ffff == 0 then 32 else 0, if w & 0xffff_ffff == 0 then w >> 32 else w;
    var n1: bv64, w1: bv64 := if w0 & 0xffff == 0 then n0 + 16 else n0, if w0 & 0xffff == 0 then w0 >> 16 else w0;
    var n2: bv64, w2: bv64 := if w1 & 0xff == 0 then n1 + 8 else n1, if w1 & 0xff == 0 then w1 >> 8 else w1;
    var n3: bv64, w3: bv64 := if w2 & 0xf0 == 0 then n2 + 4 else n2, if w2 & 0xf0 == 0 then w2 else w2 >> 4;
    var n4: bv64, w4: bv64 := if w3 & 0xc == 0 then n3 + 2 else n3, if w3 & 0xc == 0 then w3 else w3 >> 2;
    if w4 & 2 == 0 then n4 + 1 else n4
  }

  lemma FfsSet(w: bv64)
    requires w != 0
    ensures ReverseFfs(w) < 64 && Bit(w, ReverseFfs(w))
  {
  }

  lemma FfsFirst(w: bv64, j: bv64)
    requires w != 0 && j < ReverseFfs(w) && j < 64
    ensures !Bit(w, j)
  {
  }

  /** The mask that covers the bits before `off`: whole bytes below, and the upper bits of its own byte. */
  function Mask(off: bv64): bv64 {
    var quot := ((off & 63) >> 3) << 3;
    var rest := off & 7;
    var mask := !(ONES << quot);
    var submask: bv64 := !(((0xff << rest) & 0xff) >> rest) & 0xff;
    mask + (submask << quot)
  }

  lemma MaskBefore(w: bv64, off: bv64, m: bv64, j: bv64)
    requires j < off < 64 && m == w | Mask(off)
    ensures Bit(m, j)
  {
  }

  lemma MaskBehind(w: bv64, off: bv64, m: bv64, j: bv64)
    requires off < 64 && j < 64 && !(j < off) && m == w | Mask(off)
    ensures Bit(m, j) == Bit(w, j)
  {
  }

  lemma NotBit(w: bv64, j: bv64)
    requires j < 64
    ensures Bit(!w, j) <==> !Bit(w, j)
    ensures w == ONES ==> Bit(w, j)
  {
  }

  // ----- numbers of bits as integers -----

  lemma Less(a: bv64, b: bv64)
    requires b < 64
    ensures a < b ==> (a as nat) < (b as nat)
  {
  }

  lemma Successor(n: bv64)
    requires n < 63
    ensures (n + 1) as nat == (n as nat) + 1
  {
  }

  lemma Same(a: bv64, b: bv64)
    requires a < 64 && b < 64 && a as nat == b as nat
    ensures a == b
  {
  }

  /** An integer below 64 as a bit number. */
  function Place(k: nat): bv64 {
    if k == 0 then 0 else Place(k - 1) + 1
  }

  lemma NextPlace(k: nat, n: bv64)
    requires k < 63 && n < 64 && n as nat == k
    ensures n + 1 < 64 && (n + 1) as nat == k + 1
  {
    Less(62, n);
    Successor(n);
  }

  lemma {:induction false} PlaceValue(k: nat)
    requires k < 64
    ensures Place(k) < 64 && Place(k) as nat == k
  {
    if k > 0 {
      PlaceValue(k - 1);
      NextPlace(k - 1, Place(k - 1));
    }
  }

  // ----- a bitmap of words -----

  function BitAt(words: seq<bv64>, i: nat): bool
    requires i < 64 * |words|
  {
    Bit(words[i / 64], Place(i % 64))
  }

  /** The same bitmap as a sequence of bits. */
  function Bits(words: seq<bv64>): (b: seq<bool>)
    ensures |b| == 64 * |words|
  {
    seq(64 * |words|, i requires 0 <= i < 64 * |words| => BitAt(words, i))
  }

  /** __reverse_ffz as an integer. */
  function Ffz(w: bv64): (k: nat)
    requires w != ONES
    ensures k < 64
  {
    FfsSet(!w);
    Less(ReverseFfs(!w), 63);
    ReverseFfs(!w) as nat
  }

  lemma {:induction false} FfzClear(w: bv64)
    requires w != ONES
    ensures !Bit(w, Place(Ffz(w)))
  {
    var n := ReverseFfs(!w);
    FfsSet(!w);
    NotBit(w, n);
    PlaceValue(Ffz(w));
    Same(Place(Ffz(w)), n);
  }

  lemma {:induction false} FfzFirst(w: bv64, j: nat)
    requires w != ONES && j < Ffz(w)
    ensures Bit(w, Place(j))
  {
    var n := ReverseFfs(!w);
    FfsSet(!w);
    PlaceValue(j);
    Below(Place(j), n);
    FfsFirst(!w, Place(j));
    NotBit(w, Place(j));
  }

  lemma Below(a: bv64, b: bv64)
    requires a < 64 && b < 64
    ensures (a as nat) < (b as nat) <==> a < b
  {
    Less(a, b);
    if b < a { Less(b, a); }
  }

  /** The word with the bits before `from` counted as set. */
  function Masked(w: bv64, from: nat): bv64
    requires from < 64
  {
    w | Mask(Place(from))
  }

  lemma {:induction false} MaskedBit(w: bv64, from: nat, j: nat, m: bv64, off: bv64, at: bv64)
    requires from <= j < 64 && off == Place(from) && m == w | Mask(off) && at == Place(j)
    ensures Bit(m, at) == Bit(w, at)
  {
    PlacesInOrder(j, from, at, off);
    MaskBehind(w, off, m, at);
  }

  lemma PlacesInOrder(j: nat, from: nat, at: bv64, off: bv64)
    requires from <= j < 64 && off == Place(from) && at == Place(j)
    ensures off < 64 && at < 64 && !(at < off)
  {
    PlaceOrder(j, from);
  }

  lemma {:induction false} MaskedBefore(w: bv64, from: nat, j: nat)
    requires j < from < 64
    ensures Bit(Masked(w, from), Place(j))
  {
    PlaceOrder(j, from);
    MaskBefore(w, Place(from), Masked(w, from), Place(j));
  }

  lemma PlaceOrder(a: nat, b: nat)
    requires a < 64 && b < 64
    ensures Place(a) < 64 && Place(b) < 64 && (Place(a) < Place(b) <==> a < b)
  {
    PlaceValue(a);
    PlaceValue(b);
    Below(Place(a), Place(b));
  }

  // ----- one word of the bitmap -----

  /** Every bit from a to b is set. */
  ghost predicate AllSet(words: seq<bv64>, a: nat, b: nat)
    requires b <= 64 * |words|
  {
    forall i: nat :: a <= i < b ==> BitAt(words, i)
  }

  lemma AtWord(words: seq<bv64>, p: nat, j: nat)
    requires p < |words| && j < 64
    ensures BitAt(words, 64 * p + j) == Bit(words[p], Place(j))
  {
    assert (64 * p + j) / 64 == p && (64 * p + j) % 64 == j;
  }

  /** Before the first clear bit of the masked word, the bits from `from` on are set. */
  lemma {:induction false} SetBelow(words: seq<bv64>, p: nat, from: nat, j: nat)
    requires p < |words| && from < 64 && Masked(words[p], from) != ONES && from <= j < Ffz(Masked(words[p], from))
    ensures BitAt(words, 64 * p + j)
  {
    FfzFirst(Masked(words[p], from), j);
    MaskedBit(words[p], from, j, Masked(words[p], from), Place(from), Place(j));
    AtWord(words, p, j);
  }

  /** And that bit itself is clear in the word, at or behind `from`. */
  lemma {:induction false} ClearThere(words: seq<bv64>, p: nat, from: nat)
    requires p < |words| && from < 64 && Masked(words[p], from) != ONES
    ensures from <= Ffz(Masked(words[p], from)) && !BitAt(words, 64 * p + Ffz(Masked(words[p], from)))
  {
    var k := Ffz(Masked(words[p], from));
    FfzClear(Masked(words[p], from));
    if k < from { MaskedBefore(words[p], from, k); } else { MaskedBit(words[p], from, k, Masked(words[p], from), Place(from), Place(k)); }
    AtWord(words, p, k);
  }

  lemma {:induction false} FullWordSet(words: seq<bv64>, p: nat, from: nat, a: nat)
    requires p < |words| && from < 64 && Masked(words[p], from) == ONES && AllSet(words, a, 64 * p + from)
    ensures AllSet(words, a, 64 * p + 64)
  {
    forall i: nat | a <= i < 64 * p + 64 ensures BitAt(words, i) {
      if i >= 64 * p + from {
        PlaceValue(i - 64 * p);
        NotBit(ONES, Place(i - 64 * p));
        MaskedBit(words[p], from, i - 64 * p, Masked(words[p], from), Place(from), Place(i - 64 * p));
        AtWord(words, p, i - 64 * p);
      }
    }
  }

  lemma NoMask(w: bv64)
    ensures Masked(w, 0) == w
  {
  }

  // ----- the end of the bitmap -----

  /** The mask of found_first for a last word of which only `left` bits belong to the bitmap. */
  function Tail(left: nat): bv64
    requires left < 64
  {
    PlaceValue(left);
    ONES << Place(left)
  }

  /** A word as the search sees it: in the last one, the mask counts as set. */
  function SeenWord(words: seq<bv64>, size: nat, p: nat): bv64
    requires p < |words| && 64 * p < size
  {
    if 64 * p + 64 <= size then words[p] else words[p] | Tail(size - 64 * p)
  }

  function WordsOf(size: nat): (n: nat)
    ensures size <= 64 * n < size + 64
  {
    (size + 63) / 64
  }

  function Seen(words: seq<bv64>, size: nat): (r: seq<bv64>)
    requires size <= 64 * |words|
    ensures |r| == WordsOf(size)
  {
    seq(WordsOf(size), p requires 0 <= p < WordsOf(size) => SeenWord(words, size, p))
  }

  /** What the search returns: the next bit that it sees clear, or the size. */
  function Search(words: seq<bv64>, size: nat, offset: nat): nat
    requires size <= 64 * |words|
  {
    if offset >= size then size else
    var z := NextZero(Bits(Seen(words, size)), offset);
    if z == 64 * WordsOf(size) then size else z
  }

  lemma MaskedTail(w: bv64, tail: bv64, from: nat)
    requires from < 64
    ensures Masked(w, from) | tail == Masked(w | tail, from)
  {
    OrSwap(w, Mask(Place(from)), tail);
  }

  lemma OrSwap(a: bv64, b: bv64, c: bv64)
    ensures (a | b) | c == (a | c) | b
  {
  }

  /** __find_rev_next_zero_bit. */
  method FindRevNextZeroBit(words: seq<bv64>, size: nat, offset: nat) returns (r: nat)
    requires size <= 64 * |words|
    ensures r == Search(words, size, offset)
  {
    if offset >= size { return size; }
    ghost var seen := Seen(words, size);
    var p := offset / 64;
    var result := 64 * p;
    var rest := offset % 64;
    if rest != 0 {
      var tmp := Masked(words[p], rest);
      assert size - result >= 64 ==> seen[p] == words[p];
      if size - result < 64 {
        r := FoundFirst(words, size, p, rest, tmp, offset);
        return;
      }
      if tmp != ONES {
        r := FoundMiddle(p, tmp, seen, rest, offset);
        return;
      }
      FullWordSet(seen, p, rest, offset);
      p, result := p + 1, result + 64;
    }
    while size - result >= 64
      invariant result == 64 * p <= size && offset <= result && AllSet(seen, offset, result)
    {
      var tmp := words[p];
      NoMask(tmp);
      if tmp != ONES {
        r := FoundMiddle(p, tmp, seen, 0, offset);
        return;
      }
      FullWordSet(seen, p, 0, offset);
      p, result := p + 1, result + 64;
    }
    if size == result {
      IsNextZero(seen, offset, result);
      return result;
    }
    NoMask(words[p]);
    r := FoundFirst(words, size, p, 0, words[p], offset);
  }

  lemma LastWord(words: seq<bv64>, size: nat, p: nat, from: nat, tmp: bv64, last: bv64)
    requires size <= 64 * |words| && 64 * p < size < 64 * p + 64 && from < 64
    requires tmp == Masked(words[p], from) && last == tmp | Tail(size - 64 * p)
    ensures WordsOf(size) == p + 1 && last == Masked(Seen(words, size)[p], from)
  {
    MaskedTail(words[p], Tail(size - 64 * p), from);
  }

  /** found_first: the last word, of which only some bits belong to the bitmap. */
  method FoundFirst(ghost words: seq<bv64>, size: nat, p: nat, ghost from: nat, tmp: bv64, ghost offset: nat) returns (r: nat)
    requires size <= 64 * |words| && 64 * p < size < 64 * p + 64 && from < 64 && tmp == Masked(words[p], from)
    requires offset <= 64 * p + from && offset < size && AllSet(Seen(words, size), offset, 64 * p + from)
    ensures r == Search(words, size, offset)
  {
    ghost var seen := Seen(words, size);
    var last := tmp | Tail(size - 64 * p);
    LastWord(words, size, p, from, tmp, last);
    if last == ONES {
      r := size;
      NoneSeen(seen, p, from, offset);
    } else {
      r := FoundMiddle(p, last, seen, from, offset);
    }
  }

  lemma NoneSeen(seen: seq<bv64>, p: nat, from: nat, offset: nat)
    requires |seen| == p + 1 && from < 64 && Masked(seen[p], from) == ONES
    requires offset <= 64 * p + from && AllSet(seen, offset, 64 * p + from)
    ensures NextZero(Bits(seen), offset) == 64 * p + 64
  {
    FullWordSet(seen, p, from, offset);
    IsNextZero(seen, offset, 64 * p + 64);
  }

  /** The first clear bit of word p is the next one overall. */
  method FoundMiddle(p: nat, tmp: bv64, ghost words: seq<bv64>, ghost from: nat, ghost offset: nat) returns (r: nat)
    requires p < |words| && from < 64 && tmp == Masked(words[p], from) != ONES
    requires offset <= 64 * p + from && AllSet(words, offset, 64 * p + from)
    ensures r == NextZero(Bits(words), offset) && r < 64 * |words|
  {
    ClearThere(words, p, from);
    r := 64 * p + Ffz(tmp);
    SetUpTo(words, p, from, offset);
    IsNextZero(words, offset, r);
  }

  lemma {:induction false} SetUpTo(words: seq<bv64>, p: nat, from: nat, offset: nat)
    requires p < |words| && from < 64 && Masked(words[p], from) != ONES && AllSet(words, offset, 64 * p + from)
    ensures AllSet(words, offset, 64 * p + Ffz(Masked(words[p], from)))
  {
    var k := Ffz(Masked(words[p], from));
    forall i: nat | offset <= i < 64 * p + k ensures BitAt(words, i) {
      if i >= 64 * p + from { SetBelow(words, p, from, i - 64 * p); }
    }
  }

  lemma NextZeroIs(b: seq<bool>, offset: nat, r: nat)
    requires offset <= r <= |b| && (forall i :: offset <= i < r ==> b[i]) && (r < |b| ==> !b[r])
    ensures r == NextZero(b, offset)
  {
  }

  lemma {:induction false} IsNextZero(words: seq<bv64>, offset: nat, r: nat)
    requires offset <= r <= 64 * |words| && AllSet(words, offset, r) && (r < 64 * |words| ==> !BitAt(words, r))
    ensures r == NextZero(Bits(words), offset)
  {
    forall i | offset <= i < r ensures Bits(words)[i] {
      assert BitAt(words, i);
    }
    NextZeroIs(Bits(words), offset, r);
  }

  // ----- when the search is a linear search -----

  /** The mask of the last word is laid over plain bit numbers, not over the reversed ones. */
  lemma TailBit(w: bv64, left: bv64, m: bv64, j: bv64)
    requires left < 64 && j < 64 && m == w | (ONES << left)
    ensures Bit(m, j) <==> Bit(w, j) || left <= j ^ 7
  {
  }

  /** On whole bytes the two numberings agree about what lies behind the mask. */
  lemma WholeBytesTail(w: bv64, left: bv64, m: bv64, j: bv64, behind: bool)
    requires left < 64 && j < 64 && left & 7 == 0 && m == w | (ONES << left) && (behind <==> !(j < left))
    ensures Bit(m, j) <==> Bit(w, j) || behind
  {
    TailBit(w, left, m, j);
    SameSide(left, j);
  }

  lemma SameSide(left: bv64, j: bv64)
    requires left < 64 && j < 64 && left & 7 == 0
    ensures left <= j ^ 7 <==> !(j < left)
  {
  }

  /** Otherwise the first bit `j` of the split byte is masked although it belongs to the bitmap. */
  lemma SplitByteTail(w: bv64, left: bv64, m: bv64, j: bv64)
    requires left < 64 && j < 64 && j & 7 == 0 && j < left && m == w | (ONES << left)
    requires j == 56 || left < j + 8
    ensures Bit(m, j)
  {
    TailBit(w, left, m, j);
    SplitByte(left, j);
  }

  lemma SplitByte(left: bv64, j: bv64)
    requires left < 64 && j < 64 && j & 7 == 0 && j < left
    requires j == 56 || left < j + 8
    ensures left <= j ^ 7
  {
  }

  /** The numbers of the first bits of the bytes. */
  lemma PlaceBytes()
    ensures Place(0) == 0 && Place(8) == 8 && Place(16) == 16 && Place(24) == 24
    ensures Place(32) == 32 && Place(40) == 40 && Place(48) == 48 && Place(56) == 56
  {
    assert Place(8) == 8 && Place(16) == 16 && Place(24) == 24;
    assert Place(32) == 32 && Place(40) == 40 && Place(48) == 48;
  }

  lemma ByteMultiple(x: bv64)
    requires x == 0 || x == 8 || x == 16 || x == 24 || x == 32 || x == 40 || x == 48 || x == 56
    ensures x <= 56 && x & 7 == 0
  {
  }

  lemma PlaceByte(q: nat)
    requires q < 8
    ensures Place(8 * q) <= 56 && Place(8 * q) & 7 == 0
  {
    PlaceBytes();
    ByteMultiple(Place(8 * q));
  }

  /** Which bits of a last word of q whole bytes lie behind the mask. */
  lemma TailOfBytes(w: bv64, q: nat, j: nat, m: bv64, at: bv64, left: bv64)
    requires q < 8 && j < 64 && at == Place(j) && left == Place(8 * q) && left < 64 && m == w | (ONES << left)
    ensures Bit(m, at) <==> Bit(w, at) || 8 * q <= j
  {
    PlaceByte(q);
    PlaceOrder(j, 8 * q);
    WholeBytesTail(w, left, m, at, 8 * q <= j);
  }

  /** The last word as the search sees it, when `bits` of it belong to the bitmap. */
  lemma LastSeen(words: seq<bv64>, size: nat, p: nat, bits: nat, left: bv64)
    requires size <= 64 * |words| && size == 64 * p + bits && 0 < bits < 64 && left == Place(bits)
    ensures WordsOf(size) == p + 1 && left < 64
    ensures Seen(words, size)[p] == words[p] | (ONES << left)
  {
    PlaceValue(bits);
  }

  lemma WordBit(words: seq<bv64>, p: nat, j: nat, w: bv64, at: bv64, b: bool)
    requires p < |words| && j < 64 && w == words[p] && at == Place(j) && b == Bit(w, at)
    ensures BitAt(words, 64 * p + j) == b
  {
    AtWord(words, p, j);
  }

  lemma LastWordBit(words: seq<bv64>, size: nat, p: nat, q: nat, j: nat, at: bv64, left: bv64)
    requires size <= 64 * |words| && size == 64 * p + 8 * q && 0 < q < 8 && j < 64
    requires at == Place(j) && left == Place(8 * q)
    ensures WordsOf(size) == p + 1
    ensures Bit(Seen(words, size)[p], at) <==> Bit(words[p], at) || 8 * q <= j
  {
    LastSeen(words, size, p, 8 * q, left);
    TailOfBytes(words[p], q, j, Seen(words, size)[p], at, left);
  }

  /** Behind the last whole byte everything counts as set. */
  lemma {:induction false} LastSeenBit(words: seq<bv64>, size: nat, p: nat, q: nat, j: nat)
    requires size <= 64 * |words| && size == 64 * p + 8 * q && 0 < q < 8 && j < 64
    ensures WordsOf(size) == p + 1
    ensures BitAt(Seen(words, size), 64 * p + j) <==> 64 * p + j >= size || BitAt(words, 64 * p + j)
  {
    LastWordBit(words, size, p, q, j, Place(j), Place(8 * q));
    WordBit(words, p, j, words[p], Place(j), Bit(words[p], Place(j)));
    WordBit(Seen(words, size), p, j, Seen(words, size)[p], Place(j), Bit(Seen(words, size)[p], Place(j)));
  }

  lemma {:induction false} SeenBit(words: seq<bv64>, size: nat, p: nat, j: nat)
    requires size <= 64 * |words| && p < WordsOf(size) && j < 64 && size % 8 == 0
    ensures BitAt(Seen(words, size), 64 * p + j) <==> 64 * p + j >= size || BitAt(words, 64 * p + j)
  {
    if 64 * p + 64 > size {
      LastSeenBit(words, size, p, (size - 64 * p) / 8, j);
    } else {
      WordBit(words, p, j, words[p], Place(j), Bit(words[p], Place(j)));
      WordBit(Seen(words, size), p, j, words[p], Place(j), Bit(words[p], Place(j)));
    }
  }

  /** On a bitmap of whole bytes, as every validity bitmap is, the search is a linear search for the next clear bit. */
  lemma {:induction false} WholeBytesAreLinear(words: seq<bv64>, size: nat, offset: nat)
    requires size <= 64 * |words| && size % 8 == 0
    ensures Search(words, size, offset) == NextZero(Bits(words)[..size], offset)
  {
    if offset < size {
      forall i: nat | i < 64 * WordsOf(size) ensures Bits(Seen(words, size))[i] <==> i >= size || Bits(words)[i] {
        SeenBit(words, size, i / 64, i % 64);
      }
      CutOff(Bits(words), Bits(Seen(words, size)), size, offset);
    }
  }

  /** Searching a bitmap with everything behind `size` set is searching its first `size` bits. */
  lemma CutOff(bits: seq<bool>, seen: seq<bool>, size: nat, offset: nat)
    requires offset <= size <= |bits| && size <= |seen|
    requires forall i: nat :: i < |seen| ==> (seen[i] <==> i >= size || (i < |bits| && bits[i]))
    ensures NextZero(bits[..size], offset) == (var z := NextZero(seen, offset); if z == |seen| then size else z)
  {
    var z := NextZero(seen, offset);
    NextZeroIs(bits[..size], offset, if z == |seen| then size else z);
  }

  lemma SplitPlaces(q: nat, r: nat)
    requires q < 8 && 0 < r < 8
    ensures Place(8 * q) < Place(8 * q + r) < 64
    ensures Place(8 * q) == 56 || Place(8 * q + r) < Place(8 * q) + 8
  {
    PlaceBytes();
    PlaceOrder(8 * q, 8 * q + r);
    if q < 7 { PlaceOrder(8 * q + r, 8 * (q + 1)); }
  }

  lemma TailOfSplitByte(w: bv64, q: nat, r: nat, m: bv64, at: bv64, left: bv64)
    requires q < 8 && 0 < r < 8 && left == Place(8 * q + r) && left < 64 && m == w | (ONES << left) && at == Place(8 * q)
    ensures Bit(m, at)
  {
    PlaceByte(q);
    SplitPlaces(q, r);
    SplitByteTail(w, left, m, at);
  }

  lemma SplitWordBit(words: seq<bv64>, size: nat, p: nat, q: nat, r: nat, at: bv64, left: bv64)
    requires size <= 64 * |words| && size == 64 * p + (8 * q + r) && q < 8 && 0 < r < 8
    requires at == Place(8 * q) && left == Place(8 * q + r)
    ensures WordsOf(size) == p + 1
    ensures Bit(Seen(words, size)[p], at)
  {
    LastSeen(words, size, p, 8 * q + r, left);
    TailOfSplitByte(words[p], q, r, Seen(words, size)[p], at, left);
  }

  lemma SplitByteSeen(words: seq<bv64>, size: nat, p: nat, q: nat, r: nat)
    requires size <= 64 * |words| && size == 64 * p + (8 * q + r) && q < 8 && 0 < r < 8
    ensures WordsOf(size) == p + 1 && BitAt(Seen(words, size), 64 * p + 8 * q)
  {
    SplitWordBit(words, size, p, q, r, Place(8 * q), Place(8 * q + r));
    WordBit(Seen(words, size), p, 8 * q, Seen(words, size)[p], Place(8 * q), true);
  }

  /** On any other size a clear first bit of the last byte is missed. */
  lemma {:induction false} SplitByteIsMissed(words: seq<bv64>, size: nat)
    requires size <= 64 * |words| && size % 8 != 0 && !BitAt(words, size - size % 8)
    ensures NextZero(Bits(words)[..size], size - size % 8) == size - size % 8
    ensures Search(words, size, size - size % 8) != size - size % 8
  {
    var i := size - size % 8;
    var p := i / 64;
    var q := (i - 64 * p) / 8;
    assert i == 64 * p + 8 * q;
    SplitByteSeen(words, size, p, q, size % 8);
    SeenSet(words, size, i);
  }

  lemma SeenSet(words: seq<bv64>, size: nat, i: nat)
    requires size <= 64 * |words| && i < size && BitAt(Seen(words, size), i)
    ensures Search(words, size, i) != i
  {
    assert Bits(Seen(words, size))[i];
  }

  ghost predicate LinearOn(words: seq<bv64>, size: nat, offset: nat)
    requires size <= 64 * |words|
  {
    Search(words, size, offset) == NextZero(Bits(words)[..size], offset)
  }

  /** The search is linear on all bitmaps of a size exactly when the size is a number of whole bytes. */
  lemma {:induction false} LinearIff(size: nat)
    ensures (forall words: seq<bv64>, offset: nat :: size <= 64 * |words| ==> LinearOn(words, size, offset)) <==> size % 8 == 0
  {
    if size % 8 == 0 {
      forall words: seq<bv64>, offset: nat | size <= 64 * |words| ensures LinearOn(words, size, offset) {
        WholeBytesAreLinear(words, size, offset);
      }
    } else {
      var words := seq(WordsOf(size), _ => 0 as bv64);
      var i := size - size % 8;
      ZeroBit(Place(i % 64));
      SplitByteIsMissed(words, size);
      assert !LinearOn(words, size, i);
    }
  }

  lemma ZeroBit(j: bv64)
    ensures !Bit(0, j)
  {
  }

  // ----- the words that f2fs_set_bit makes of a validity map -----

  /** The first n bits from `base` on, set one by one in a zero word. */
  function WordFrom(bits: seq<bool>, base: nat, n: nat): bv64
    requires n <= 64
  {
    if n == 0 then 0
    else
      var w := WordFrom(bits, base, n - 1);
      if base + n - 1 < |bits| && bits[base + n - 1] then PlaceValue(n - 1); SetBit(w, Place(n - 1)) else w
  }

  function Packed(bits: seq<bool>): (words: seq<bv64>)
    ensures |words| == WordsOf(|bits|)
  {
    seq(WordsOf(|bits|), p requires 0 <= p < WordsOf(|bits|) => WordFrom(bits, 64 * p, 64))
  }

  lemma BitAfterSet(w: bv64, a: bv64, j: bv64, same: bool)
    requires a < 64 && j < 64 && (same <==> a == j)
    ensures Bit(SetBit(w, a), j) <==> same || Bit(w, j)
  {
    if same { SetBitSets(w, a); } else { SetBitKeeps(w, a, j); }
  }

  lemma PlaceEq(a: nat, b: nat)
    requires a < 64 && b < 64
    ensures Place(a) < 64 && Place(b) < 64 && (a == b <==> Place(a) == Place(b))
  {
    PlaceValue(a);
    PlaceValue(b);
  }

  lemma {:induction false} WordFromBit(bits: seq<bool>, base: nat, n: nat, j: nat, at: bv64)
    requires n <= 64 && j < 64 && at == Place(j)
    ensures Bit(WordFrom(bits, base, n), at) <==> j < n && base + j < |bits| && bits[base + j]
  {
    if n == 0 {
      ZeroBit(at);
    } else {
      WordFromBit(bits, base, n - 1, j, at);
      PlaceEq(n - 1, j);
      BitAfterSet(WordFrom(bits, base, n - 1), Place(n - 1), at, n - 1 == j);
    }
  }

  /** target_map in __next_free_blkoff: the words of two maps or-ed together. */
  function OrWords(a: seq<bv64>, b: seq<bv64>): (r: seq<bv64>)
    requires |a| == |b|
    ensures |r| == |a|
  {
    seq(|a|, p requires 0 <= p < |a| => a[p] | b[p])
  }

  lemma OrBit(a: bv64, b: bv64, m: bv64, j: bv64)
    requires m == a | b && j < 64
    ensures Bit(m, j) <==> Bit(a, j) || Bit(b, j)
  {
  }

  lemma OrPackedWord(a: bv64, b: bv64, m: bv64, at: bv64, inA: bool, inB: bool)
    requires m == a | b && at < 64 && (Bit(a, at) <==> inA) && (Bit(b, at) <==> inB)
    ensures Bit(m, at) <==> inA || inB
  {
    OrBit(a, b, m, at);
  }

  lemma PackedWord(x: seq<bool>, p: nat, j: nat, w: bv64, at: bv64)
    requires p < WordsOf(|x|) && j < 64 && 64 * p + j < |x| && w == Packed(x)[p] && at == Place(j)
    ensures Bit(w, at) <==> x[64 * p + j]
  {
    WordFromBit(x, 64 * p, 64, j, at);
  }

  lemma OrPackedPlace(x: seq<bool>, y: seq<bool>, p: nat, j: nat, a: bv64, b: bv64, m: bv64, at: bv64)
    requires |x| == |y| && p < WordsOf(|x|) && j < 64 && 64 * p + j < |x| && at == Place(j)
    requires a == Packed(x)[p] && b == Packed(y)[p] && m == a | b
    ensures Bit(m, at) <==> x[64 * p + j] || y[64 * p + j]
  {
    PlaceValue(j);
    PackedWord(x, p, j, a, at);
    PackedWord(y, p, j, b, at);
    OrPackedWord(a, b, m, at, x[64 * p + j], y[64 * p + j]);
  }

  lemma {:induction false} OrPackedBit(x: seq<bool>, y: seq<bool>, p: nat, j: nat)
    requires |x| == |y| && p < WordsOf(|x|) && j < 64 && 64 * p + j < |x|
    ensures BitAt(OrWords(Packed(x), Packed(y)), 64 * p + j) <==> x[64 * p + j] || y[64 * p + j]
  {
    var m := OrWords(Packed(x), Packed(y))[p];
    OrPackedPlace(x, y, p, j, Packed(x)[p], Packed(y)[p], m, Place(j));
    WordBit(OrWords(Packed(x), Packed(y)), p, j, m, Place(j), x[64 * p + j] || y[64 * p + j]);
  }

  /** The word-wise search over two maps of whole bytes finds the next position that is clear in both. */
  lemma {:induction false} SearchOfUnion(x: seq<bool>, y: seq<bool>, offset: nat)
    requires |x| == |y| && |x| % 8 == 0
    ensures Search(OrWords(Packed(x), Packed(y)), |x|, offset) == NextZero(Union(x, y), offset)
  {
    var words := OrWords(Packed(x), Packed(y));
    WholeBytesAreLinear(words, |x|, offset);
    forall i: nat | i < |x| ensures Bits(words)[i] == Union(x, y)[i] {
      OrPackedBit(x, y, i / 64, i % 64);
    }
    assert Bits(words)[..|x|] == Union(x, y);
  }
}
