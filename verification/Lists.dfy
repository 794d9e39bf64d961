/** Deleting from a linked list of ids. */
module Lists {
  ghost predicate NoDup(s: seq<nat>) {
    forall i, j :: 0 <= i < j < |s| ==> s[i] != s[j]
  }

  /** list_del. */
  function Without(s: seq<nat>, n: nat): (r: seq<nat>) {
    if s == [] then [] else if s[0] == n then s[1..] else [s[0]] + Without(s[1..], n)
  }

  lemma {:induction false} WithoutOk(s: seq<nat>, n: nat)
    requires NoDup(s)
    ensures NoDup(Without(s, n)) && |Without(s, n)| == |s| - (if n in s then 1 else 0)
    ensures forall x :: x in Without(s, n) <==> x in s && x != n
  {
    if s != [] {
      assert forall x :: x in s <==> x == s[0] || x in s[1..];
      assert s[0] !in s[1..];
      if s[0] != n {
        WithoutOk(s[1..], n);
        assert s[0] !in Without(s[1..], n);
      }
    }
  }
}
