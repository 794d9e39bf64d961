/** Bitmaps as sequences of bits, and the counts the segment manager keeps beside them. */
module Bitmaps {

  /** The number of set bits. */
  function Ones(s: seq<bool>): (n: nat)
    ensures n <= |s|
  {
    if s == [] then 0 else Ones(s[..|s| - 1]) + (if s[|s| - 1] then 1 else 0)
  }

  lemma {:induction false} OnesUpdate(s: seq<bool>, i: nat, b: bool)
    requires i < |s|
    ensures Ones(s[i := b]) == Ones(s) + (if b then 1 else 0) - (if s[i] then 1 else 0)
  {
    var last := |s| - 1;
    if i == last {
      assert s[i := b][..last] == s[..last];
    } else {
      assert s[i := b][..last] == s[..last][i := b];
      OnesUpdate(s[..last], i, b);
    }
  }

  lemma {:induction false} OnesZero(s: seq<bool>)
    ensures Ones(s) == 0 <==> forall i :: 0 <= i < |s| ==> !s[i]
  {
    if s != [] {
      var last := |s| - 1;
      OnesZero(s[..last]);
      assert forall i :: 0 <= i < last ==> s[..last][i] == s[i];
    }
  }

  lemma {:induction false} OnesFull(s: seq<bool>)
    ensures Ones(s) == |s| <==> forall i :: 0 <= i < |s| ==> s[i]
  {
    if s != [] {
      var last := |s| - 1;
      OnesFull(s[..last]);
      assert forall i :: 0 <= i < last ==> s[..last][i] == s[i];
    }
  }

  /** clear_bit and set_bit on one position. */
  function PutBit(s: seq<bool>, i: nat, b: bool): (r: seq<bool>)
    ensures |r| == |s|
    ensures forall k :: 0 <= k < |s| ==> r[k] == if k == i then b else s[k]
  {
    if i < |s| then s[i := b] else s
  }

  function Union(a: seq<bool>, b: seq<bool>): (u: seq<bool>)
    requires |a| == |b|
  {
    seq(|a|, i requires 0 <= i < |a| => a[i] || b[i])
  }

  /** The least index at or after `from` whose bit is clear, or the length when there is none. */
  function NextZero(s: seq<bool>, from: nat): (r: nat)
    ensures from <= |s| ==> from <= r <= |s|
    ensures from > |s| ==> r == |s|
    ensures r < |s| ==> !s[r]
    ensures forall i :: from <= i < r ==> s[i]
    decreases |s| - from
  {
    if from >= |s| then |s| else if !s[from] then from else NextZero(s, from + 1)
  }

  /** The least index at or after `from` whose bit is set, or the length when there is none. */
  function NextOne(s: seq<bool>, from: nat): (r: nat)
    ensures from <= |s| ==> from <= r <= |s|
    ensures from > |s| ==> r == |s|
    ensures r < |s| ==> s[r]
    ensures forall i :: from <= i < r ==> !s[i]
    decreases |s| - from
  {
    if from >= |s| then |s| else if s[from] then from else NextOne(s, from + 1)
  }
}
