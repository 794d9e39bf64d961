/** Two regular-expression matchers (ACM/leetcode): a recursion over suffixes and a table over prefixes. */
module Regex {

  /** A character against a pattern character. */
  predicate Fits(c: char, d: char) { c == d || d == '.' }

  predicate Starred(p: string) { |p| >= 2 && p[1] == '*' }

  /** 10_BF.cpp: isMatch over suffixes. */
  predicate IsMatch(s: string, p: string)
    decreases |p|, |s|
  {
    if p == "" then s == ""
    else if Starred(p) then
      IsMatch(s, p[2..]) || (s != "" && Fits(s[0], p[0]) && IsMatch(s[1..], p))
    else
      s != "" && Fits(s[0], p[0]) && IsMatch(s[1..], p[1..])
  }

  /** A pattern without a leading star; only then the table stays inside its bounds. */
  predicate NoLeadingStar(p: string) { p != "" ==> p[0] != '*' }

  /** The recurrence of 10_DP.cpp, over prefixes. */
  predicate Table(s: string, p: string)
    requires NoLeadingStar(p)
    decreases |p|, |s|
  {
    if p == "" then s == ""
    else
      var n := |p|;
      var m := |s|;
      if p[n - 1] == '*' then
        Table(s, p[..n - 2]) || (m > 0 && Fits(s[m - 1], p[n - 2]) && Table(s[..m - 1], p))
      else
        m > 0 && Table(s[..m - 1], p[..n - 1]) && Fits(s[m - 1], p[n - 1])
  }

  // ----- the table itself -----

  lemma TakeTake(s: string, i: nat, j: nat)
    requires i <= j <= |s|
    ensures s[..j][..i] == s[..i]
  {
  }

  /** Cell (i, j) of the table, told by the cells it is computed from. */
  lemma {:induction false} Cell(s: string, p: string, i: nat, j: nat)
    requires NoLeadingStar(p) && i <= |s| && 0 < j <= |p|
    ensures p[j - 1] == '*' ==> j >= 2
    ensures p[j - 1] == '*' ==>
      Table(s[..i], p[..j]) == (Table(s[..i], p[..j - 2]) || (i > 0 && Fits(s[i - 1], p[j - 2]) && Table(s[..i - 1], p[..j])))
    ensures p[j - 1] != '*' ==>
      Table(s[..i], p[..j]) == (i > 0 && Table(s[..i - 1], p[..j - 1]) && Fits(s[i - 1], p[j - 1]))
  {
    if p[j - 1] == '*' { TakeTake(p, j - 2, j); } else { TakeTake(p, j - 1, j); }
    if i > 0 { TakeTake(s, i - 1, i); }
  }

  /** The loops of 10_DP.cpp fill the table; the last cell is the answer. */
  method MatchByTable(s: string, p: string) returns (r: bool)
    requires p != "" && NoLeadingStar(p)
    ensures r == Table(s, p)
    ensures forall es: seq<Elem> :: Text(es) == p && ReadBackward(es) ==> (r <==> Splits(s, es))
  {
    var m, n := |s|, |p|;
    var f := new bool[m + 1, n + 1]((_, _) => false);
    f[0, 0] := true;
    f[0, 1] := false;
    FirstColumn(s, p);
    var i := 1;
    while i <= m
      invariant 1 <= i <= m + 1
      invariant f[0, 0] == Table(s[..0], p[..0]) && f[0, 1] == Table(s[..0], p[..1])
      invariant forall a :: 0 <= a < i ==> f[a, 0] == Table(s[..a], p[..0])
    {
      f[i, 0] := false;
      i := i + 1;
    }
    var j := 2;
    while j <= n
      invariant 2 <= j && (n >= 2 ==> j <= n + 1)
      invariant forall a :: 0 <= a <= m ==> f[a, 0] == Table(s[..a], p[..0])
      invariant forall b :: 0 <= b < j && b <= n ==> f[0, b] == Table(s[..0], p[..b])
    {
      Cell(s, p, 0, j);
      f[0, j] := '*' == p[j - 1] && f[0, j - 2];
      j := j + 1;
    }
    i := 1;
    while i <= m
      invariant 1 <= i <= m + 1
      invariant forall a, b :: 0 <= a < i && 0 <= b <= n ==> f[a, b] == Table(s[..a], p[..b])
      invariant forall a :: 0 <= a <= m ==> f[a, 0] == Table(s[..a], p[..0])
    {
      FillRow(s, p, f, i);
      i := i + 1;
    }
    assert s[..m] == s && p[..n] == p;
    r := f[m, n];
    forall es: seq<Elem> | Text(es) == p && ReadBackward(es) ensures r <==> Splits(s, es) { TableMeans(s, p, es); }
  }

  /** One row of the table. */
  method FillRow(s: string, p: string, f: array2<bool>, i: nat)
    requires NoLeadingStar(p) && 0 < i <= |s| && f.Length0 == |s| + 1 && f.Length1 == |p| + 1
    requires f[i, 0] == Table(s[..i], p[..0])
    requires forall b :: 0 <= b <= |p| ==> f[i - 1, b] == Table(s[..i - 1], p[..b])
    modifies f
    ensures forall b :: 0 <= b <= |p| ==> f[i, b] == Table(s[..i], p[..b])
    ensures forall a, b :: 0 <= a <= |s| && 0 <= b <= |p| && a != i ==> f[a, b] == old(f[a, b])
  {
    var j := 1;
    while j <= |p|
      invariant 1 <= j <= |p| + 1
      invariant forall b :: 0 <= b < j ==> f[i, b] == Table(s[..i], p[..b])
      invariant forall a, b :: 0 <= a <= |s| && 0 <= b <= |p| && a != i ==> f[a, b] == old(f[a, b])
    {
      Cell(s, p, i, j);
      if '*' == p[j - 1] {
        f[i, j] := f[i, j - 2] || (Fits(s[i - 1], p[j - 2]) && f[i - 1, j]);
      } else {
        f[i, j] := f[i - 1, j - 1] && Fits(s[i - 1], p[j - 1]);
      }
      j := j + 1;
    }
  }

  lemma FirstColumn(s: string, p: string)
    requires p != "" && NoLeadingStar(p)
    ensures forall a :: 0 <= a <= |s| ==> Table(s[..a], p[..0]) == (a == 0)
    ensures !Table(s[..0], p[..1])
  {
    Cell(s, p, 0, 1);
  }

  // ----- isMatch satisfies the recurrence of the table -----

  /** Scanning the pattern as isMatch does, one element at a time, position k is the start of an element. */
  predicate Reaches(p: string, k: nat) {
    if k == 0 then true
    else if Starred(p) then k >= 2 && Reaches(p[2..], k - 2)
    else p != "" && Reaches(p[1..], k - 1)
  }

  /** Last pattern character not a star: it fits the last character. */
  lemma {:induction false} LastPlain(s: string, p: string)
    requires p != "" && p[|p| - 1] != '*'
    ensures IsMatch(s, p) <==> s != "" && IsMatch(s[..|s| - 1], p[..|p| - 1]) && Fits(s[|s| - 1], p[|p| - 1])
    decreases |p|, |s|
  {
    var n := |p|;
    var q := p[..n - 1];
    if n == 1 {
      if s != "" { assert s[1..] == "" <==> s[..|s| - 1] == ""; }
    } else if Starred(p) {
      assert q[2..] == p[2..][..n - 3] && Starred(q) && p[2..][n - 3] == p[n - 1];
      LastPlain(s, p[2..]);
      if s != "" { DropBoth(s); LastPlain(s[1..], p); }
    } else {
      assert q[1..] == p[1..][..n - 2] && !Starred(q) && p[1..][n - 2] == p[n - 1];
      if s != "" { DropBoth(s); LastPlain(s[1..], p[1..]); }
    }
  }

  /** Taking off the first and the last character commute. */
  lemma DropBoth(s: string)
    requires s != ""
    ensures |s| > 1 ==> s[1..][..|s| - 2] == s[..|s| - 1][1..] && s[1..][|s| - 2] == s[|s| - 1] && s[..|s| - 1][0] == s[0]
  {
  }

  /** Last element starred: it takes nothing, or the last character. */
  lemma {:induction false} LastStarred(s: string, p: string)
    requires |p| >= 2 && p[|p| - 1] == '*' && Reaches(p, |p| - 2)
    ensures IsMatch(s, p) <==>
      IsMatch(s, p[..|p| - 2]) || (s != "" && Fits(s[|s| - 1], p[|p| - 2]) && IsMatch(s[..|s| - 1], p))
    decreases |p|, |s|
  {
    var n := |p|;
    var q := p[..n - 2];
    if n == 2 {
      if s != "" {
        DropBoth(s);
        LastStarred(s[1..], p);
        OnlyStarred(s, p);
      }
    } else if Starred(p) {
      assert q[2..] == p[2..][..n - 4] && Starred(q) && p[2..][n - 4] == p[n - 2];
      LastStarred(s, p[2..]);
      if s != "" { DropBoth(s); LastStarred(s[1..], p); }
    } else {
      assert q[1..] == p[1..][..n - 3] && !Starred(q) && p[1..][n - 3] == p[n - 2];
      if s != "" { DropBoth(s); LastStarred(s[1..], p[1..]); }
    }
  }

  /** A pattern of one starred element can be eaten up from either side. */
  lemma {:induction false} OnlyStarred(s: string, p: string)
    requires |p| == 2 && p[1] == '*'
    ensures IsMatch(s, p) <==> forall i :: 0 <= i < |s| ==> Fits(s[i], p[0])
    decreases |s|
  {
    if s != "" { OnlyStarred(s[1..], p); }
  }

  // ----- what the patterns mean -----

  /** One element of a pattern: a character, and whether a star follows it. */
  datatype Elem = Elem(c: char, starred: bool)

  function Text(es: seq<Elem>): string {
    if es == [] then "" else (if es[0].starred then [es[0].c, '*'] else [es[0].c]) + Text(es[1..])
  }

  /** The element takes this piece: any number of its character if starred, else one; a dot is any character. */
  predicate Takes(e: Elem, piece: string) {
    (e.starred || |piece| == 1) && forall i :: 0 <= i < |piece| ==> e.c == '.' || piece[i] == e.c
  }

  function Concat(pieces: seq<string>): string {
    if pieces == [] then "" else pieces[0] + Concat(pieces[1..])
  }

  ghost predicate SplitInto(s: string, es: seq<Elem>, pieces: seq<string>) {
    |pieces| == |es| && s == Concat(pieces) && forall i :: 0 <= i < |es| ==> Takes(es[i], pieces[i])
  }

  /** s can be cut into pieces, one for each element. */
  ghost predicate Splits(s: string, es: seq<Elem>) {
    exists pieces: seq<string> :: SplitInto(s, es, pieces)
  }

  /** As isMatch reads a pattern: a character before a star is starred. */
  ghost predicate ReadForward(es: seq<Elem>) {
    forall i :: 0 < i < |es| && !es[i - 1].starred ==> es[i].c != '*'
  }

  /** As the table reads it: a star belongs to the character before it, and is not one itself. */
  ghost predicate ReadBackward(es: seq<Elem>) {
    forall i :: 0 <= i < |es| && !es[i].starred ==> es[i].c != '*'
  }

  lemma SplitsNone(s: string)
    ensures Splits(s, []) <==> s == ""
  {
    assert SplitInto("", [], []);
  }

  /** One character against one element. */
  lemma TakesOne(e: Elem, x: char)
    ensures Takes(e, [x]) <==> Fits(x, e.c)
  {
    assert [x][0] == x;
  }

  lemma HeadTaken(s: string, es: seq<Elem>, pieces: seq<string>)
    requires es != [] && SplitInto(s, es, pieces)
    ensures !es[0].starred ==> s != "" && Takes(es[0], [s[0]]) && Splits(s[1..], es[1..])
    ensures es[0].starred ==> Splits(s, es[1..]) || (s != "" && Takes(es[0], [s[0]]) && Splits(s[1..], es))
  {
    if pieces[0] == "" {
      assert SplitInto(s, es[1..], pieces[1..]);
    } else {
      assert s[0] == pieces[0][0] && s[1..] == pieces[0][1..] + Concat(pieces[1..]);
      if es[0].starred {
        assert SplitInto(s[1..], es, [pieces[0][1..]] + pieces[1..]);
      } else {
        assert SplitInto(s[1..], es[1..], pieces[1..]);
      }
    }
  }

  lemma HeadSkipped(s: string, es: seq<Elem>)
    requires es != [] && es[0].starred && Splits(s, es[1..])
    ensures Splits(s, es)
  {
    var pieces: seq<string> :| SplitInto(s, es[1..], pieces);
    assert SplitInto(s, es, [""] + pieces);
  }

  lemma HeadPut(x: char, s: string, es: seq<Elem>)
    requires es != [] && Takes(es[0], [x]) && !es[0].starred && Splits(s, es[1..])
    ensures Splits([x] + s, es)
  {
    var pieces: seq<string> :| SplitInto(s, es[1..], pieces);
    var q := [[x]] + pieces;
    assert q[1..] == pieces && Concat(q) == [x] + s;
    assert SplitInto([x] + s, es, q);
  }

  lemma HeadGrown(x: char, s: string, es: seq<Elem>)
    requires es != [] && Takes(es[0], [x]) && es[0].starred && Splits(s, es)
    ensures Splits([x] + s, es)
  {
    var pieces: seq<string> :| SplitInto(s, es, pieces);
    var q := [[x] + pieces[0]] + pieces[1..];
    TakesMore(es[0], x, pieces[0]);
    assert q[1..] == pieces[1..] && Concat(q) == [x] + (pieces[0] + Concat(pieces[1..]));
    assert SplitInto([x] + s, es, q);
  }

  lemma TakesMore(e: Elem, x: char, piece: string)
    requires e.starred && Takes(e, [x]) && Takes(e, piece)
    ensures Takes(e, [x] + piece)
  {
    assert [x][0] == x;
  }

  /** The first element takes the first character, or, if starred, nothing. */
  lemma SplitsHead(s: string, es: seq<Elem>)
    requires es != []
    ensures !es[0].starred ==> (Splits(s, es) <==> s != "" && Fits(s[0], es[0].c) && Splits(s[1..], es[1..]))
    ensures es[0].starred ==>
      (Splits(s, es) <==> Splits(s, es[1..]) || (s != "" && Fits(s[0], es[0].c) && Splits(s[1..], es)))
  {
    if pieces: seq<string> :| SplitInto(s, es, pieces) { HeadTaken(s, es, pieces); }
    if es[0].starred && Splits(s, es[1..]) { HeadSkipped(s, es); }
    if s != "" {
      TakesOne(es[0], s[0]);
      assert s == [s[0]] + s[1..];
      if es[0].starred {
        if Fits(s[0], es[0].c) && Splits(s[1..], es) { HeadGrown(s[0], s[1..], es); }
      } else {
        if Fits(s[0], es[0].c) && Splits(s[1..], es[1..]) { HeadPut(s[0], s[1..], es); }
      }
    }
  }

  /** isMatch decides whether the string can be cut into pieces for the elements as it reads them. */
  lemma {:induction false} IsMatchMeans(s: string, p: string, es: seq<Elem>)
    requires Text(es) == p && ReadForward(es)
    ensures IsMatch(s, p) <==> Splits(s, es)
    decreases |p|, |s|
  {
    if es == [] {
      SplitsNone(s);
    } else {
      SplitsHead(s, es);
      TextHead(es);
      if es[0].starred {
        IsMatchMeans(s, p[2..], es[1..]);
        if s != "" { IsMatchMeans(s[1..], p, es); }
      } else if s != "" {
        IsMatchMeans(s[1..], p[1..], es[1..]);
      }
    }
  }

  lemma TextHead(es: seq<Elem>)
    requires es != [] && ReadForward(es)
    ensures Text(es) != "" && (Starred(Text(es)) <==> es[0].starred) && Text(es)[0] == es[0].c
    ensures Text(es[1..]) == Text(es)[if es[0].starred then 2 else 1..] && ReadForward(es[1..])
  {
    if |es| > 1 { assert Text(es[1..])[0] == es[1].c; }
  }

  lemma {:induction false} ConcatLast(pieces: seq<string>, x: string)
    ensures Concat(pieces + [x]) == Concat(pieces) + x
  {
    if pieces == [] {
      assert Concat([x]) == x;
    } else {
      assert (pieces + [x])[1..] == pieces[1..] + [x];
      ConcatLast(pieces[1..], x);
    }
  }

  lemma {:induction false} TextLast(es: seq<Elem>)
    requires es != []
    ensures var e := es[|es| - 1]; Text(es) == Text(es[..|es| - 1]) + if e.starred then [e.c, '*'] else [e.c]
  {
    if |es| > 1 {
      TextLast(es[1..]);
      assert es[1..][..|es| - 2] == es[..|es| - 1][1..];
    }
  }

  /** s[k..] is the piece of the last element. */
  ghost predicate CutAt(s: string, es: seq<Elem>, k: nat)
    requires es != []
  {
    k <= |s| && Splits(s[..k], es[..|es| - 1]) && Takes(es[|es| - 1], s[k..])
  }

  lemma {:induction false} SplitsCut(s: string, es: seq<Elem>)
    requires es != []
    ensures Splits(s, es) <==> exists k: nat :: CutAt(s, es, k)
  {
    if pieces: seq<string> :| SplitInto(s, es, pieces) {
      var front, last := pieces[..|es| - 1], pieces[|es| - 1];
      ConcatLast(front, last);
      assert pieces == front + [last];
      assert SplitInto(Concat(front), es[..|es| - 1], front) && s[..|Concat(front)|] == Concat(front);
      assert CutAt(s, es, |Concat(front)|);
    }
    if k: nat :| CutAt(s, es, k) {
      var pieces: seq<string> :| SplitInto(s[..k], es[..|es| - 1], pieces);
      ConcatLast(pieces, s[k..]);
      assert SplitInto(s, es, pieces + [s[k..]]);
    }
  }

  lemma LastPiece(s: string, e: Elem, k: nat)
    requires k <= |s|
    ensures !e.starred ==> (Takes(e, s[k..]) <==> k == |s| - 1 && Fits(s[k], e.c))
    ensures e.starred && k < |s| ==> (Takes(e, s[k..]) <==> Fits(s[|s| - 1], e.c) && Takes(e, s[..|s| - 1][k..]))
    ensures e.starred && k == |s| ==> Takes(e, s[k..])
  {
    if k < |s| {
      var last := s[k..];
      assert last[|last| - 1] == s[|s| - 1] && s[..|s| - 1][k..] == last[..|last| - 1];
      assert forall i :: 0 <= i < |last| - 1 ==> last[..|last| - 1][i] == last[i];
    }
  }

  lemma CutPlain(s: string, es: seq<Elem>, k: nat)
    requires es != [] && !es[|es| - 1].starred
    ensures CutAt(s, es, k) <==> k == |s| - 1 && Fits(s[k], es[|es| - 1].c) && Splits(s[..k], es[..|es| - 1])
  {
    if k <= |s| { LastPiece(s, es[|es| - 1], k); }
  }

  lemma CutStarred(s: string, es: seq<Elem>, k: nat)
    requires es != [] && es[|es| - 1].starred && k <= |s|
    ensures CutAt(s, es, k) <==>
      if k == |s| then Splits(s, es[..|es| - 1]) else Fits(s[|s| - 1], es[|es| - 1].c) && CutAt(s[..|s| - 1], es, k)
  {
    LastPiece(s, es[|es| - 1], k);
    assert if k == |s| then s[..k] == s else s[..|s| - 1][..k] == s[..k];
  }

  /** The last element takes the last character, or, if starred, nothing. */
  lemma {:induction false} SplitsLast(s: string, es: seq<Elem>)
    requires es != []
    ensures var e, front := es[|es| - 1], es[..|es| - 1];
      && (!e.starred ==> (Splits(s, es) <==> s != "" && Fits(s[|s| - 1], e.c) && Splits(s[..|s| - 1], front)))
      && (e.starred ==> (Splits(s, es) <==> Splits(s, front) || (s != "" && Fits(s[|s| - 1], e.c) && Splits(s[..|s| - 1], es))))
  {
    SplitsCut(s, es);
    if es[|es| - 1].starred {
      CutStarred(s, es, |s|);
      if k: nat :| CutAt(s, es, k) { CutStarred(s, es, k); }
      if s != "" {
        var t := s[..|s| - 1];
        SplitsCut(t, es);
        if k: nat :| CutAt(t, es, k) { CutStarred(s, es, k); }
      }
    } else {
      if s != "" { CutPlain(s, es, |s| - 1); }
      if k: nat :| CutAt(s, es, k) { CutPlain(s, es, k); }
    }
  }

  /** The table decides the same for the elements as it reads them. */
  lemma {:induction false} TableMeans(s: string, p: string, es: seq<Elem>)
    requires NoLeadingStar(p) && Text(es) == p && ReadBackward(es)
    ensures Table(s, p) <==> Splits(s, es)
    decreases |p|, |s|
  {
    if es == [] {
      SplitsNone(s);
    } else {
      SplitsLast(s, es);
      TextLast(es);
      var e, front := es[|es| - 1], es[..|es| - 1];
      assert Text(front) == p[..|p| - if e.starred then 2 else 1];
      if e.starred {
        TableMeans(s, p[..|p| - 2], front);
        if s != "" { TableMeans(s[..|s| - 1], p, es); }
      } else if s != "" {
        TableMeans(s[..|s| - 1], p[..|p| - 1], front);
      }
    }
  }

  /** Every pattern has such a reading, for each of the two. */
  lemma {:induction false} Readings(p: string)
    ensures exists es: seq<Elem> :: Text(es) == p && ReadForward(es)
    ensures NoLeadingStar(p) ==> exists es: seq<Elem> :: Text(es) == p && ReadBackward(es)
  {
    var f := Forward(p);
    if NoLeadingStar(p) { var b := Backward(p); }
  }

  lemma {:induction false} Forward(p: string) returns (es: seq<Elem>)
    ensures Text(es) == p && ReadForward(es) && (p != "" ==> es != [] && es[0].c == p[0])
  {
    es := [];
    if Starred(p) {
      var rest := Forward(p[2..]);
      es := [Elem(p[0], true)] + rest;
    } else if p != "" {
      var rest := Forward(p[1..]);
      es := [Elem(p[0], false)] + rest;
    }
  }

  lemma {:induction false} Backward(p: string) returns (es: seq<Elem>)
    requires NoLeadingStar(p)
    ensures Text(es) == p && ReadBackward(es)
  {
    es := [];
    if p != "" {
      var starred := p[|p| - 1] == '*';
      var n := if starred then |p| - 2 else |p| - 1;
      var front := Backward(p[..n]);
      es := front + [Elem(p[n], starred)];
      TextLast(es);
      assert es[..|es| - 1] == front;
    }
  }

  // ----- where the two agree -----

  /** isMatch reads some star as an ordinary character: one that follows no element of its own. */
  predicate LoneStar(p: string) {
    p != "" && if Starred(p) then LoneStar(p[2..]) else p[0] == '*' || LoneStar(p[1..])
  }

  predicate AdjacentStars(p: string) {
    exists i :: 0 < i < |p| && p[i - 1] == '*' && p[i] == '*'
  }

  /** Without a leading star and adjacent stars there is no lone star. */
  lemma {:induction false} UsualPatterns(p: string)
    requires NoLeadingStar(p) && !AdjacentStars(p)
    ensures !LoneStar(p)
  {
    if p != "" {
      var k := if Starred(p) then 2 else 1;
      forall i | 0 < i < |p[k..]| ensures !(p[k..][i - 1] == '*' && p[k..][i] == '*') {
        assert p[k..][i - 1] == p[i + k - 1] && p[k..][i] == p[i + k];
      }
      UsualPatterns(p[k..]);
    }
  }

  /** Cutting the pattern at the start of an element. */
  lemma {:induction false} LoneStarSplit(p: string, k: nat)
    requires k <= |p| && Reaches(p, k)
    ensures LoneStar(p) <==> LoneStar(p[..k]) || LoneStar(p[k..])
  {
    if k > 0 {
      if Starred(p) {
        LoneStarSplit(p[2..], k - 2);
        assert p[2..][..k - 2] == p[..k][2..] && p[2..][k - 2..] == p[k..] && Starred(p[..k]);
      } else {
        LoneStarSplit(p[1..], k - 1);
        assert p[1..][..k - 1] == p[..k][1..] && p[1..][k - 1..] == p[k..] && !Starred(p[..k]);
      }
    } else {
      assert p[0..] == p;
    }
  }

  /** An element cannot be entered in the middle of another unless that one is starred there. */
  lemma {:induction false} ReachesPlain(p: string, k: nat)
    requires k <= |p| && (k < |p| ==> p[k] != '*')
    ensures Reaches(p, k)
  {
    if k > 0 {
      if Starred(p) {
        ReachesPlain(p[2..], k - 2);
      } else {
        ReachesPlain(p[1..], k - 1);
      }
    }
  }

  /** If no star is read as a character, the last star belongs to the element before it. */
  lemma {:induction false} ReachesLast(p: string)
    requires |p| >= 2 && p[|p| - 1] == '*' && !LoneStar(p)
    ensures Reaches(p, |p| - 2)
  {
    if |p| > 2 {
      if Starred(p) {
        assert |p| > 3;
        ReachesLast(p[2..]);
      } else {
        ReachesLast(p[1..]);
      }
    }
  }

  lemma {:induction false} AgreeWithoutLoneStar(s: string, p: string)
    requires NoLeadingStar(p) && !LoneStar(p)
    ensures Table(s, p) == IsMatch(s, p)
    decreases |p|, |s|
  {
    var n := |p|;
    if n > 0 {
      if p[n - 1] == '*' {
        ReachesLast(p);
        LoneStarSplit(p, n - 2);
        LastStarred(s, p);
        AgreeWithoutLoneStar(s, p[..n - 2]);
        if s != "" { AgreeWithoutLoneStar(s[..|s| - 1], p); }
      } else {
        ReachesPlain(p, n - 1);
        LoneStarSplit(p, n - 1);
        LastPlain(s, p);
        if s != "" { AgreeWithoutLoneStar(s[..|s| - 1], p[..n - 1]); }
      }
    }
  }

  // ----- where they differ -----

  /** A string without stars that the table accepts. */
  function Witness(p: string): (s: string)
    requires NoLeadingStar(p)
    ensures forall i :: 0 <= i < |s| ==> s[i] != '*'
  {
    var n := |p|;
    if n == 0 then ""
    else if p[n - 1] == '*' then Witness(p[..n - 2])
    else Witness(p[..n - 1]) + [if p[n - 1] == '.' then 'a' else p[n - 1]]
  }

  lemma {:induction false} WitnessAccepted(p: string)
    requires NoLeadingStar(p)
    ensures Table(Witness(p), p)
  {
    var n := |p|;
    if n > 0 {
      if p[n - 1] == '*' {
        WitnessAccepted(p[..n - 2]);
      } else {
        WitnessAccepted(p[..n - 1]);
        assert Witness(p)[..|Witness(p)| - 1] == Witness(p[..n - 1]);
      }
    }
  }

  /** A star read as a character needs a star in the string. */
  lemma {:induction false} LoneStarNeedsStar(s: string, p: string)
    requires LoneStar(p) && forall i :: 0 <= i < |s| ==> s[i] != '*'
    ensures !IsMatch(s, p)
    decreases |p|, |s|
  {
    if Starred(p) {
      LoneStarNeedsStar(s, p[2..]);
      if s != "" { LoneStarNeedsStar(s[1..], p); }
    } else if s != "" && p[0] != '*' {
      LoneStarNeedsStar(s[1..], p[1..]);
    }
  }

  /** The table and isMatch agree on every string exactly when the pattern has no lone star. */
  lemma {:induction false} MatchersAgreeIff(p: string)
    requires p != "" && NoLeadingStar(p)
    ensures (forall s: string :: Table(s, p) == IsMatch(s, p)) <==> !LoneStar(p)
  {
    if LoneStar(p) {
      WitnessAccepted(p);
      LoneStarNeedsStar(Witness(p), p);
      assert Table(Witness(p), p) != IsMatch(Witness(p), p);
    } else {
      forall s: string ensures Table(s, p) == IsMatch(s, p) {
        AgreeWithoutLoneStar(s, p);
      }
    }
  }
}
