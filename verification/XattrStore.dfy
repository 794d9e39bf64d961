/** The attributes of an inode: an inline area, and a node block when that is not enough (xattr.c). */
module XattrStore {
  import opened Bytes
  import opened XattrFormat
  import opened XattrBuffer

  datatype SetResult = Done | NoSpace | OutOfRange

  /** F2FS_XATTR_MAGIC and the reference count, little-endian. */
  const MAGIC: seq<Byte> := [0x11, 0x20, 0xF5, 0xF2]
  const REFCOUNT: seq<Byte> := [1, 0, 0, 0]

  class Xattrs {
    const inlineSize: nat
    const pageSize: nat
    const footer: nat
    var inlineArea: seq<Byte>
    var node: Option<seq<Byte>>
    ghost var es: seq<Entry>

    /** MIN_OFFSET: the word before the node footer is kept for the terminator. */
    function Limit(): int { inlineSize + pageSize - footer - 4 }

    /** The bytes read_all_xattrs puts together. */
    ghost function Image(): seq<Byte>
      reads this`inlineArea, this`node
    {
      inlineArea + (if node.Some? then node.value else Zeros(pageSize))
    }

    ghost predicate Sizes() {
      && footer + 4 <= pageSize && HEADER + FIXED <= Limit() < 0x1_0000
      && inlineSize % 4 == 0 && pageSize % 4 == 0 && footer % 4 == 0
    }

    ghost predicate Valid()
      reads this
    {
      && Sizes() && |inlineArea| == inlineSize && (node.Some? ==> |node.value| == pageSize)
      && Holds(Image(), es, Limit())
    }

    /** The attributes as a map. */
    ghost function Contents(): map<Key, seq<Byte>>
      reads this`es
    {
      Attrs(es)
    }

    /** The list would not leave room for the terminator. */
    ghost predicate TooBig(es: seq<Entry>, k: nat, key: Key, value: Option<seq<Byte>>) {
      value.Some? && UsedAfter(es, k, key, value) > Limit()
    }

    /** The list needs a node block, there is none, and no node id is to be had. */
    ghost predicate NoBlock(es: seq<Entry>, k: nat, key: Key, value: Option<seq<Byte>>, node: Option<seq<Byte>>, nidAvailable: bool) {
      UsedAfter(es, k, key, value) > inlineSize && node.None? && !nidAvailable
    }

    constructor (inlineSize: nat, pageSize: nat, footer: nat)
      requires footer + 4 <= pageSize && HEADER + FIXED <= inlineSize + pageSize - footer - 4 < 0x1_0000
      requires inlineSize % 4 == 0 && pageSize % 4 == 0 && footer % 4 == 0
      ensures Valid() && Contents() == map[]
    {
      this.inlineSize, this.pageSize, this.footer := inlineSize, pageSize, footer;
      inlineArea, node, es := Zeros(inlineSize), None, [];
    }

    /** read_all_xattrs: one zeroed buffer, the two areas copied into it, and a header if there was none. */
    method ReadAll() returns (a: array<Byte>)
      requires Valid()
      ensures fresh(a) && Holds(a[..], es, Limit()) && a.Length == inlineSize + pageSize
    {
      a := new Byte[inlineSize + pageSize](_ => 0);
      MemCopy(a, 0, inlineArea);
      if node.Some? {
        MemCopy(a, inlineSize, node.value);
      }
      assert a[..] == Image();
      if a[0] != MAGIC[0] || a[1] != MAGIC[1] || a[2] != MAGIC[2] || a[3] != MAGIC[3] {
        MemCopy(a, 0, MAGIC);
        MemCopy(a, 4, REFCOUNT);
      }
      SameList(Image(), a[..], es, Limit());
    }

    /**
     * write_all_xattrs: the inline area always, the node block only when the list does not fit inline;
     * otherwise the node block goes.  `newFooter` is what fill_node_footer writes in a new block.
     */
    method WriteAll(hsize: nat, a: array<Byte>, nidAvailable: bool, newFooter: seq<Byte>, ghost es': seq<Entry>)
      returns (failed: bool)
      requires Valid() && a.Length == inlineSize + pageSize && |newFooter| == footer
      requires Holds(a[..], es', Limit()) && hsize == Offset(es', |es'|)
      modifies this`inlineArea, this`node, this`es
      ensures Valid()
      ensures failed == (hsize > inlineSize && old(node).None? && !nidAvailable)
      ensures es == if failed then old(es) else es'
      ensures !failed && 0 < inlineSize ==> (node.Some? <==> hsize > inlineSize)
    {
      failed := hsize > inlineSize && node.None? && !nidAvailable;
      if failed { return; }
      if inlineSize > 0 && hsize <= inlineSize {
        WriteInline(hsize, a, es');
      } else {
        WriteNode(a, newFooter, es');
      }
    }

    /** The list fits inline: the node block goes. */
    method WriteInline(hsize: nat, a: array<Byte>, ghost es': seq<Entry>)
      requires Valid() && a.Length == inlineSize + pageSize && 0 < inlineSize && hsize <= inlineSize
      requires Holds(a[..], es', Limit()) && hsize == Offset(es', |es'|)
      modifies this`inlineArea, this`node, this`es
      ensures Valid() && es == es' && node == None
    {
      inlineArea := a[..inlineSize];
      node := None;
      InlineImage(a[..], Image(), es', inlineSize, hsize, Limit());
      es := es';
    }

    /** The list goes into both areas, behind a footer that stays. */
    method WriteNode(a: array<Byte>, newFooter: seq<Byte>, ghost es': seq<Entry>)
      requires Valid() && a.Length == inlineSize + pageSize && |newFooter| == footer && Holds(a[..], es', Limit())
      modifies this`inlineArea, this`node, this`es
      ensures Valid() && es == es' && node.Some?
    {
      if inlineSize > 0 {
        inlineArea := a[..inlineSize];
      }
      var tail := if node.Some? then node.value[pageSize - footer..] else newFooter;
      node := Some(a[inlineSize..inlineSize + (pageSize - footer)] + tail);
      SplitImage(a[..], tail, inlineSize, pageSize, footer);
      SameList(a[..], Image(), es', Limit());
      es := es';
    }

    /** __f2fs_setxattr is the update of a map; its errors change nothing. */
    method SetXattr(key: Key, value: Option<seq<Byte>>, nidAvailable: bool, newFooter: seq<Byte>)
      returns (r: SetResult)
      requires Valid() && 0 < key.index && |newFooter| == footer
      modifies this`inlineArea, this`node, this`es
      ensures Valid()
      ensures r.OutOfRange? <==> |key.name| > 255 || (value.Some? && |value.value| > Limit() - HEADER - FIXED)
      ensures !r.OutOfRange? ==> forall k :: FirstMatch(old(es), key, k) ==>
        (r.NoSpace? <==> TooBig(old(es), k, key, value) || NoBlock(old(es), k, key, value, old(node), nidAvailable))
      ensures !r.Done? ==> es == old(es)
      ensures r.Done? ==>
        Contents() == if value.None? then old(Contents()) - {key} else old(Contents())[key := value.value]
    {
      var valueLen := if value.None? then 0 else |value.value|;
      if |key.name| > 255 || valueLen > Limit() - HEADER - FIXED {
        return OutOfRange;
      }
      var a := ReadAll();
      var full, hsize, k := SetInBuffer(a, Limit(), key, value, es);
      OneMatch(es, key, k);
      if full { return NoSpace; }
      UpdatedAttrs(es, k, key, value);
      var failed := WriteAll(hsize, a, nidAvailable, newFooter, Updated(es, k, key, value));
      r := if failed then NoSpace else Done;
    }

    /** f2fs_getxattr is the lookup in that map. */
    method GetXattr(key: Key, bufferSize: Option<nat>) returns (r: Answer)
      requires Valid()
      ensures key !in Contents() ==> r == NoData
      ensures key in Contents() && bufferSize.Some? && |Contents()[key]| > bufferSize.value ==> r == Range
      ensures key in Contents() && bufferSize.None? ==> r == Got(|Contents()[key]|, None)
      ensures key in Contents() && bufferSize.Some? && |Contents()[key]| <= bufferSize.value ==>
        r == Got(|Contents()[key]|, Some(Contents()[key]))
    {
      var a := ReadAll();
      r := GetFromBuffer(a, Limit(), key, bufferSize, es);
    }
  }

  lemma OneMatch(es: seq<Entry>, key: Key, k: nat)
    requires FirstMatch(es, key, k)
    ensures forall i :: FirstMatch(es, key, i) ==> i == k
  {
  }

  /** The two areas written from one buffer, with a footer at the end. */
  lemma SplitImage(s: seq<Byte>, tail: seq<Byte>, inlineSize: nat, pageSize: nat, footer: nat)
    requires |s| == inlineSize + pageSize && |tail| == footer <= pageSize
    ensures var image := s[..inlineSize] + (s[inlineSize..inlineSize + (pageSize - footer)] + tail);
      |image| == |s| && forall k :: 0 <= k < inlineSize + pageSize - footer ==> image[k] == s[k]
  {
  }

  /** Only the bytes between the header and the terminator matter. */
  lemma SameList(s: seq<Byte>, t: seq<Byte>, es: seq<Entry>, limit: nat)
    requires Holds(s, es, limit) && limit + 4 <= |t| && forall k :: HEADER <= k < limit + 4 ==> t[k] == s[k]
    ensures Holds(t, es, limit)
  {
  }

  /** A list that fits inline is still there when the node block is gone. */
  lemma InlineImage(s: seq<Byte>, t: seq<Byte>, es: seq<Entry>, inlineSize: nat, hsize: nat, limit: nat)
    requires Holds(s, es, limit) && hsize == Offset(es, |es|) <= inlineSize <= |s| == |t|
    requires forall k :: 0 <= k < |t| ==> t[k] == if k < inlineSize then s[k] else 0
    ensures Holds(t, es, limit)
  {
    forall k | HEADER <= k < limit + 4 ensures t[k] == s[k] {
      PastEnd(es, k - HEADER);
    }
    SameList(s, t, es, limit);
  }
}
