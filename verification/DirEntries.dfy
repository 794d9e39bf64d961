/** A hashed directory (dir.c) as a map from names to inode numbers. */
module DirEntries {
  import opened Bitmaps
  import opened DirLayout
  import opened DirBlock

  /** Where an entry lies; the level is the one it was added at. */
  datatype Loc = Loc(level: nat, blk: nat, pos: nat)

  /** The dentry blocks that exist, and, for the proof, where entries begin and where each name is. */
  datatype View = View(blocks: map<nat, DentryBlock>, live: map<nat, set<nat>>, at: map<string, Loc>)

  ghost predicate BlocksOk(nr: nat, v: View) {
    v.blocks.Keys == v.live.Keys && forall b :: b in v.blocks ==> BlockOk(nr, v.blocks[b], v.live[b])
  }

  /** The entry of `name` is at l, in a block of its hash bucket. */
  ghost predicate Holds(nr: nat, h: nat, v: View, name: string, l: Loc) {
    && l.blk in v.blocks && l.blk in v.live && l.pos in v.live[l.blk]
    && Sized(nr, v.blocks[l.blk]) && l.pos < nr && Matches(v.blocks[l.blk], l.pos, name, h)
    && InBucket(l.level, h, l.blk)
  }

  ghost predicate NamesOk(nr: nat, hash: string -> nat, v: View) {
    forall n :: n in v.at ==> Holds(nr, hash(n), v, n, v.at[n])
  }

  /** Every entry is the one its name leads to. */
  ghost predicate Back(nr: nat, v: View, b: nat, p: nat) {
    && b in v.blocks && Sized(nr, v.blocks[b]) && p < nr
    && NameAt(v.blocks[b], p) in v.at && v.at[NameAt(v.blocks[b], p)].blk == b && v.at[NameAt(v.blocks[b], p)].pos == p
  }

  ghost predicate BackOk(nr: nat, v: View) {
    forall b, p :: b in v.live && p in v.live[b] ==> Back(nr, v, b, p)
  }

  ghost predicate ViewOk(nr: nat, hash: string -> nat, v: View) {
    BlocksOk(nr, v) && NamesOk(nr, hash, v) && BackOk(nr, v)
  }

  function InoAt(v: View, l: Loc): int {
    if l.blk in v.blocks && l.pos < |v.blocks[l.blk].dentry| then v.blocks[l.blk].dentry[l.pos].ino else 0
  }

  /** The directory as a map. */
  function Names(v: View): map<string, int> {
    map n | n in v.at :: InoAt(v, v.at[n])
  }

  // ----- adding -----

  function WithEntry(nr: nat, v: View, l: Loc, d: Dentry, name: string): View
    requires l.blk in v.blocks && l.blk in v.live && Sized(nr, v.blocks[l.blk]) && l.pos < nr
    requires SLOT_LEN * l.pos + |name| <= SLOT_LEN * nr
  {
    View(v.blocks[l.blk := Added(nr, v.blocks[l.blk], l.pos, d, name)],
         v.live[l.blk := v.live[l.blk] + {l.pos}],
         v.at[name := l])
  }

  ghost predicate CanAdd(nr: nat, hash: string -> nat, v: View, l: Loc, d: Dentry, name: string) {
    && ViewOk(nr, hash, v) && name !in v.at && l.blk in v.blocks && l.blk in v.live
    && Addable(nr, v.blocks[l.blk], v.live[l.blk], l.pos, d, name)
    && l.pos < nr && d.hash == hash(name) && InBucket(l.level, hash(name), l.blk)
  }

  /** Entries that were there keep their name, hash, length and inode number. */
  lemma EntryKept(nr: nat, hash: string -> nat, v: View, l: Loc, d: Dentry, name: string, b: nat, p: nat)
    requires CanAdd(nr, hash, v, l, d, name) && b in v.live && p in v.live[b]
    ensures b in v.blocks && p < nr && !(b == l.blk && p == l.pos)
    ensures NameAt(WithEntry(nr, v, l, d, name).blocks[b], p) == NameAt(v.blocks[b], p)
    ensures WithEntry(nr, v, l, d, name).blocks[b].dentry[p] == v.blocks[b].dentry[p]
  {
    assert BlockOk(nr, v.blocks[b], v.live[b]);
    assert EntryOk(nr, v.blocks[b], p);
    if b == l.blk { AddedKeepsName(nr, v.blocks[b], v.live[b], l.pos, d, name, p); }
  }

  lemma AddBlocks(nr: nat, hash: string -> nat, v: View, l: Loc, d: Dentry, name: string)
    requires CanAdd(nr, hash, v, l, d, name)
    ensures BlocksOk(nr, WithEntry(nr, v, l, d, name))
  {
    AddedOk(nr, v.blocks[l.blk], v.live[l.blk], l.pos, d, name);
  }

  lemma AddNames(nr: nat, hash: string -> nat, v: View, l: Loc, d: Dentry, name: string)
    requires CanAdd(nr, hash, v, l, d, name)
    ensures NamesOk(nr, hash, WithEntry(nr, v, l, d, name))
  {
    var w := WithEntry(nr, v, l, d, name);
    AddBlocks(nr, hash, v, l, d, name);
    forall n | n in w.at ensures Holds(nr, hash(n), w, n, w.at[n]) {
      if n == name {
        AddedNew(nr, v.blocks[l.blk], v.live[l.blk], l.pos, d, name);
      } else {
        assert Holds(nr, hash(n), v, n, v.at[n]);
        EntryKept(nr, hash, v, l, d, name, v.at[n].blk, v.at[n].pos);
        assert BlockOk(nr, w.blocks[v.at[n].blk], w.live[v.at[n].blk]);
      }
    }
  }

  lemma AddBackAt(nr: nat, hash: string -> nat, v: View, l: Loc, d: Dentry, name: string, w: View, b: nat, p: nat)
    requires CanAdd(nr, hash, v, l, d, name) && w == WithEntry(nr, v, l, d, name) && BlocksOk(nr, w)
    requires b in w.live && p in w.live[b]
    ensures Back(nr, w, b, p)
  {
    assert BlockOk(nr, w.blocks[b], w.live[b]);
    if b == l.blk && p == l.pos {
      AddedNew(nr, v.blocks[l.blk], v.live[l.blk], l.pos, d, name);
    } else {
      EntryKept(nr, hash, v, l, d, name, b, p);
      assert Back(nr, v, b, p);
    }
  }

  lemma AddBack(nr: nat, hash: string -> nat, v: View, l: Loc, d: Dentry, name: string)
    requires CanAdd(nr, hash, v, l, d, name)
    ensures BackOk(nr, WithEntry(nr, v, l, d, name))
  {
    var w := WithEntry(nr, v, l, d, name);
    AddBlocks(nr, hash, v, l, d, name);
    forall b, p | b in w.live && p in w.live[b] ensures Back(nr, w, b, p) {
      AddBackAt(nr, hash, v, l, d, name, w, b, p);
    }
  }

  ghost predicate SameInos(v: View, w: View, gone: string) {
    forall n :: n in v.at && n != gone ==> n in w.at && InoAt(w, w.at[n]) == InoAt(v, v.at[n])
  }

  lemma NamesWith(v: View, w: View, name: string, ino: int)
    requires SameInos(v, w, name) && w.at.Keys == v.at.Keys + {name} && InoAt(w, w.at[name]) == ino
    ensures Names(w) == Names(v)[name := ino]
  {
  }

  lemma NamesWithout(v: View, w: View, name: string)
    requires SameInos(v, w, name) && w.at.Keys == v.at.Keys - {name}
    ensures Names(w) == Names(v) - {name}
  {
  }

  lemma AddKeepsIno(nr: nat, hash: string -> nat, v: View, l: Loc, d: Dentry, name: string, n: string)
    requires CanAdd(nr, hash, v, l, d, name) && n in v.at && n != name
    ensures InoAt(WithEntry(nr, v, l, d, name), v.at[n]) == InoAt(v, v.at[n])
  {
    assert Holds(nr, hash(n), v, n, v.at[n]);
    EntryKept(nr, hash, v, l, d, name, v.at[n].blk, v.at[n].pos);
  }

  lemma AddContents(nr: nat, hash: string -> nat, v: View, l: Loc, d: Dentry, name: string)
    requires CanAdd(nr, hash, v, l, d, name)
    ensures Names(WithEntry(nr, v, l, d, name)) == Names(v)[name := d.ino]
  {
    var w := WithEntry(nr, v, l, d, name);
    forall n | n in v.at && n != name ensures n in w.at && InoAt(w, w.at[n]) == InoAt(v, v.at[n]) {
      AddKeepsIno(nr, hash, v, l, d, name, n);
    }
    NamesWith(v, w, name, d.ino);
  }

  // ----- deleting -----

  function WithoutEntry(nr: nat, v: View, l: Loc, name: string): View
    requires l.blk in v.blocks && l.blk in v.live && Sized(nr, v.blocks[l.blk]) && l.pos < nr
  {
    View(v.blocks[l.blk := Cleared(nr, v.blocks[l.blk], l.pos)],
         v.live[l.blk := v.live[l.blk] - {l.pos}],
         v.at - {name})
  }

  lemma DeleteNameAt(nr: nat, hash: string -> nat, v: View, l: Loc, name: string, n: string)
    requires NamesOk(nr, hash, v) && name in v.at && v.at[name] == l && Holds(nr, hash(name), v, name, l)
    requires n in v.at && n != name && !(v.at[n].blk == l.blk && v.at[n].pos == l.pos)
    ensures Holds(nr, hash(n), WithoutEntry(nr, v, l, name), n, v.at[n])
  {
    assert Holds(nr, hash(n), v, n, v.at[n]);
  }

  /** Two names are never at the same place. */
  lemma PlacesDiffer(nr: nat, hash: string -> nat, v: View, a: string, b: string)
    requires NamesOk(nr, hash, v) && BackOk(nr, v) && a in v.at && b in v.at && a != b
    ensures !(v.at[a].blk == v.at[b].blk && v.at[a].pos == v.at[b].pos)
  {
    assert Holds(nr, hash(a), v, a, v.at[a]) && Holds(nr, hash(b), v, b, v.at[b]);
  }

  lemma DeleteNames(nr: nat, hash: string -> nat, v: View, l: Loc, name: string)
    requires ViewOk(nr, hash, v) && name in v.at && v.at[name] == l && Holds(nr, hash(name), v, name, l)
    ensures NamesOk(nr, hash, WithoutEntry(nr, v, l, name))
  {
    var w := WithoutEntry(nr, v, l, name);
    forall n | n in w.at ensures Holds(nr, hash(n), w, n, w.at[n]) {
      PlacesDiffer(nr, hash, v, n, name);
      DeleteNameAt(nr, hash, v, l, name, n);
    }
  }

  lemma DeleteBack(nr: nat, hash: string -> nat, v: View, l: Loc, name: string)
    requires ViewOk(nr, hash, v) && name in v.at && v.at[name] == l && Holds(nr, hash(name), v, name, l)
    ensures BackOk(nr, WithoutEntry(nr, v, l, name))
  {
    var w := WithoutEntry(nr, v, l, name);
    forall b, p | b in w.live && p in w.live[b] ensures Back(nr, w, b, p) {
      DeleteBackAt(nr, hash, v, l, name, b, p);
    }
  }

  lemma DeleteBackAt(nr: nat, hash: string -> nat, v: View, l: Loc, name: string, b: nat, p: nat)
    requires BlocksOk(nr, v) && BackOk(nr, v) && name in v.at && v.at[name] == l && Holds(nr, hash(name), v, name, l)
    requires b in v.live && p in v.live[b] && !(b == l.blk && p == l.pos)
    ensures Back(nr, WithoutEntry(nr, v, l, name), b, p)
  {
    assert Back(nr, v, b, p);
  }

  lemma DeleteContents(nr: nat, hash: string -> nat, v: View, l: Loc, name: string)
    requires ViewOk(nr, hash, v) && name in v.at && v.at[name] == l && Holds(nr, hash(name), v, name, l)
    ensures Names(WithoutEntry(nr, v, l, name)) == Names(v) - {name}
  {
    var w := WithoutEntry(nr, v, l, name);
    forall n | n in v.at && n != name ensures n in w.at && InoAt(w, w.at[n]) == InoAt(v, v.at[n]) {
      assert Holds(nr, hash(n), v, n, v.at[n]);
    }
    NamesWithout(v, w, name);
  }

  lemma DeleteOk(nr: nat, hash: string -> nat, v: View, l: Loc, name: string)
    requires ViewOk(nr, hash, v) && name in v.at && v.at[name] == l && Holds(nr, hash(name), v, name, l)
    ensures ViewOk(nr, hash, WithoutEntry(nr, v, l, name))
    ensures Names(WithoutEntry(nr, v, l, name)) == Names(v) - {name}
  {
    ClearedOk(nr, v.blocks[l.blk], v.live[l.blk], l.pos);
    DeleteNames(nr, hash, v, l, name);
    DeleteBack(nr, hash, v, l, name);
    DeleteContents(nr, hash, v, l, name);
  }

  /** The same entries in the same places, whatever happens to blocks without entries. */
  ghost predicate SameEntries(v: View, w: View) {
    && w.at == v.at
    && (forall b :: b in v.live && v.live[b] != {} && b in v.blocks ==>
         b in w.live && w.live[b] == v.live[b] && b in w.blocks && w.blocks[b] == v.blocks[b])
    && (forall b, p :: b in w.live && p in w.live[b] ==>
         b in v.live && p in v.live[b] && b in v.blocks && b in w.blocks && w.blocks[b] == v.blocks[b])
  }

  lemma SameNames(nr: nat, hash: string -> nat, v: View, w: View)
    requires BlocksOk(nr, v) && NamesOk(nr, hash, v) && SameEntries(v, w)
    ensures NamesOk(nr, hash, w) && Names(w) == Names(v)
  {
    forall n | n in w.at ensures Holds(nr, hash(n), w, n, w.at[n]) && InoAt(w, w.at[n]) == InoAt(v, v.at[n]) {
      assert Holds(nr, hash(n), v, n, v.at[n]);
    }
  }

  lemma SameBack(nr: nat, v: View, w: View)
    requires BackOk(nr, v) && SameEntries(v, w)
    ensures BackOk(nr, w)
  {
    forall b, p | b in w.live && p in w.live[b] ensures Back(nr, w, b, p) {
      assert Back(nr, v, b, p);
    }
  }

  lemma SameView(nr: nat, hash: string -> nat, v: View, w: View)
    requires ViewOk(nr, hash, v) && SameEntries(v, w) && BlocksOk(nr, w)
    ensures ViewOk(nr, hash, w) && Names(w) == Names(v)
  {
    SameNames(nr, hash, v, w);
    SameBack(nr, v, w);
  }

  /** Punching out a block that holds no entry. */
  lemma HoleOk(nr: nat, hash: string -> nat, v: View, blk: nat, w: View)
    requires ViewOk(nr, hash, v) && blk in v.live && v.live[blk] == {}
    requires w == View(v.blocks - {blk}, v.live - {blk}, v.at)
    ensures ViewOk(nr, hash, w) && Names(w) == Names(v)
  {
    HoleBlocks(nr, v, blk, w);
    SameView(nr, hash, v, w);
  }

  lemma HoleBlocks(nr: nat, v: View, blk: nat, w: View)
    requires BlocksOk(nr, v) && blk in v.live && v.live[blk] == {}
    requires w == View(v.blocks - {blk}, v.live - {blk}, v.at)
    ensures BlocksOk(nr, w) && SameEntries(v, w)
  {
  }

  /** A fresh zeroed block changes nothing. */
  lemma FreshOk(nr: nat, hash: string -> nat, v: View, blk: nat, w: View)
    requires ViewOk(nr, hash, v) && blk !in v.blocks
    requires w == View(v.blocks[blk := EmptyBlock(nr)], v.live[blk := {}], v.at)
    ensures ViewOk(nr, hash, w) && Names(w) == Names(v)
  {
    FreshBlocks(nr, v, blk, w);
    SameView(nr, hash, v, w);
  }

  lemma FreshBlocks(nr: nat, v: View, blk: nat, w: View)
    requires BlocksOk(nr, v) && blk !in v.blocks
    requires w == View(v.blocks[blk := EmptyBlock(nr)], v.live[blk := {}], v.at)
    ensures BlocksOk(nr, w) && SameEntries(v, w)
  {
    EmptyOk(nr);
  }

  // ----- lookups -----

  ghost predicate NoMatch(nr: nat, h: nat, v: View, b: nat, name: string) {
    b in v.blocks && b in v.live && Sized(nr, v.blocks[b]) ==>
      forall p :: p in v.live[b] && p < nr ==> !Matches(v.blocks[b], p, name, h)
  }

  /** The entry a lookup should return. */
  ghost predicate FoundAt(v: View, name: string, blk: nat, pos: nat) {
    name in v.at && v.at[name].level < HALF && v.at[name].blk == blk && v.at[name].pos == pos
  }

  /** A match in a visited block is the entry of the name, and it was added below level 31. */
  lemma MatchIsEntry(nr: nat, hash: string -> nat, v: View, level: nat, name: string, b: nat, p: nat)
    requires ViewOk(nr, hash, v) && Visited(level, hash(name), b) && b in v.live && p in v.live[b]
    requires b in v.blocks && p < |v.blocks[b].dentry| && Matches(v.blocks[b], p, name, hash(name))
    ensures FoundAt(v, name, b, p)
  {
    assert Back(nr, v, b, p);
    assert Holds(nr, hash(name), v, name, v.at[name]);
    if level < HALF { ShallowVisits(level, hash(name), b); } else { DeepVisits(level, hash(name), b); }
    if v.at[name].level >= HALF { DeepVisits(v.at[name].level, hash(name), b); }
  }
}
