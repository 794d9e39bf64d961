/**
 * The operations on a hashed directory (dir.c): lookup, adding a link, deleting an entry.  Every block is
 * reached through get_node_path, which ends in a BUG past the node tree; `bug` reports that outcome.
 */
module Directory {
  import opened Bitmaps
  import opened DirLayout
  import opened DirBlock
  import opened DirEntries
  import NodePath
  import opened Geometry

  /** The range of blocks of find_in_level: both ends are unsigned ints. */
  method LookupRange(level: nat, h: nat) returns (bidx: nat, end: nat)
    ensures forall b: nat :: Visited(level, h, b) <==> bidx <= b < end
  {
    var first := DirBlockIndex(level, h % DirBuckets(level));
    bidx := U32(first);
    end := U32(bidx + BucketBlocks(level));
  }

  /** Below level 31 that range is the bucket. */
  method BucketRange(level: nat, h: nat) returns (bidx: nat, end: nat)
    requires level < HALF
    ensures bidx == BlockIndex(level, Bucket(level, h)) && bidx < end == BucketEnd(level, h)
  {
    bidx, end := LookupRange(level, h);
    LookupEnds(level, h, bidx, end);
  }

  ghost predicate AllMiss(nr: nat, h: nat, v: View, name: string, lo: nat, hi: nat) {
    forall b: nat :: lo <= b < hi ==> NoMatch(nr, h, v, b, name)
  }

  /**
   * `nr` is NR_DENTRY_IN_BLOCK; `hash` stands for f2fs_dentry_hash, which may collide at will; `limit` is the
   * number of blocks the node tree reaches.
   */
  class Dir {
    const nr: nat
    const hash: string -> nat
    const limit: nat
    var blocks: map<nat, DentryBlock>
    var npages: nat
    var depth: nat
    var chash: nat
    var clevel: nat
    ghost var live: map<nat, set<nat>>
    ghost var at: map<string, Loc>

    ghost function V(): View
      reads this`blocks, this`live, this`at
    {
      View(blocks, live, at)
    }

    ghost predicate Sound()
      reads this`blocks, this`live, this`at, this`npages
    {
      && 0 < nr && ViewOk(nr, hash, V()) && (blocks != map[] ==> npages > 0)
      && limit <= WORD - 2 && forall b :: b in blocks ==> b < limit
    }

    ghost predicate Valid()
      reads this
    {
      Sound() && clevel < depth <= HALF && Shallower(at, depth)
    }

    /** The directory as a map from names to inode numbers. */
    ghost function Contents(): map<string, int>
      reads this`blocks, this`live, this`at
    {
      Names(V())
    }

    /** TreeFitsWord shows that the node tree of blocks of four kilobytes meets the bound on the limit. */
    constructor (nr: nat, hash: string -> nat, limit: nat)
      requires 0 < nr && limit <= WORD - 2
      ensures Valid() && Contents() == map[] && depth == 1 && this.nr == nr && this.hash == hash && this.limit == limit
      ensures blocks == map[] && clevel == 0
    {
      this.nr, this.hash, this.limit := nr, hash, limit;
      blocks, npages, depth, chash, clevel := map[], 0, 1, 0, 0;
      live, at := map[], map[];
    }

    // ----- lookup -----

    /** find_in_block on a block of the directory. */
    method FindInDirBlock(level: nat, blk: nat, name: string, max0: nat) returns (found: bool, pos: nat, maxSlots: nat)
      requires Sound() && blk in blocks && level < HALF && InBucket(level, hash(name), blk)
      ensures found ==> FoundAt(V(), name, blk, pos)
      ensures !found ==> NoMatch(nr, hash(name), V(), blk, name)
      ensures maxSlots == max0 || exists z: nat :: Gap(blocks[blk].bitmap, z, maxSlots)
    {
      ShallowVisits(level, hash(name), blk);
      assert BlockOk(nr, blocks[blk], live[blk]);
      pos, maxSlots := FindInBlock(nr, blocks[blk], name, hash(name), max0, live[blk]);
      found := pos < nr;
      if found { MatchIsEntry(nr, hash, V(), level, name, blk, pos); }
    }

    /** One block of that bucket: a missing one leaves room, and so does a long enough gap. */
    method VisitBlock(level: nat, blk: nat, name: string, max0: nat) returns (found: bool, pos: nat, maxSlots: nat, gap: bool)
      requires Sound() && level < HALF && InBucket(level, hash(name), blk)
      ensures found ==> FoundAt(V(), name, blk, pos)
      ensures !found ==> NoMatch(nr, hash(name), V(), blk, name)
      ensures gap || maxSlots >= Slots(|name|) ==> max0 >= Slots(|name|) || RoomyIfFits(name, blk)
    {
      if blk !in blocks { return false, 0, max0, true; }
      found, pos, maxSlots := FindInDirBlock(level, blk, name, max0);
      gap := maxSlots >= Slots(|name|);
      if z: nat :| Gap(blocks[blk].bitmap, z, maxSlots) && gap { assert Gap(blocks[blk].bitmap, z, Slots(|name|)); }
    }

    /** The block has room for the name, if a block can have. */
    ghost predicate RoomyIfFits(name: string, blk: nat)
      reads this`blocks
    {
      Slots(|name|) <= nr ==> Roomy(Need(name), blocks, blk)
    }

    ghost predicate RoomAtLevel(name: string, level: nat)
      reads this`blocks
    {
      Slots(|name|) <= nr ==> LevelRoom(Need(name), blocks, level)
    }

    /** The blocks of one bucket in find_in_level; `room` says whether some block has a gap or is missing. */
    method ScanBucket(level: nat, name: string) returns (found: bool, blk: nat, pos: nat, bug: bool, room: bool)
      requires Sound() && level < HALF
      ensures found ==> !bug && FoundAt(V(), name, blk, pos)
      ensures !found ==> AllMiss(nr, hash(name), V(), name, BlockIndex(level, Bucket(level, hash(name))), BucketEnd(level, hash(name)))
      ensures !found ==> (bug <==> limit < BucketEnd(level, hash(name)))
      ensures room && 0 < |name| ==> RoomAtLevel(name, level)
    {
      SlotsBound(|name|);
      var maxSlots: nat := 0;
      var first, end := BucketRange(level, hash(name));
      blk, pos, found, bug, room := first, 0, false, false, false;
      ghost var v := V();
      while blk < end
        invariant first <= blk <= end && AllMiss(nr, hash(name), v, name, first, blk)
        invariant first < blk ==> blk <= limit
        invariant 0 < |name| && (room || maxSlots >= Slots(|name|)) ==> RoomAtLevel(name, level)
      {
        if blk >= limit {
          bug := true;
          return;
        }
        assert InBucket(level, hash(name), blk);
        var gap;
        found, pos, maxSlots, gap := VisitBlock(level, blk, name, maxSlots);
        if found { return; }
        room := room || gap;
        blk := blk + 1;
      }
    }

    /**
     * find_in_level, with the hint it may leave for the next add: this level, when some block of the bucket has
     * room and the last hint was for another hash.  It reaches past the node tree if the bucket does.
     */
    method FindInLevel(level: nat, name: string) returns (found: bool, blk: nat, pos: nat, bug: bool)
      requires Valid() && level < depth
      modifies this`chash, this`clevel
      ensures Valid()
      ensures found ==> !bug && FoundAt(V(), name, blk, pos)
      ensures !found && name in at ==> at[name].level != level
      ensures !found ==> (bug <==> limit < BucketEnd(level, hash(name)))
      ensures (chash == old(chash) && clevel == old(clevel)) || (
        && old(chash) != chash == hash(name) && clevel == level && !found && !bug && (0 < |name| ==> RoomAtLevel(name, level)))
    {
      var room;
      found, blk, pos, bug, room := ScanBucket(level, name);
      if !found { MissedAtLevel(nr, hash, V(), level, name); }
      if !found && !bug && room && chash != hash(name) {
        chash, clevel := hash(name), level;
      }
    }

    /** Some level of the directory has a bucket for this hash that ends past the node tree. */
    ghost predicate PastTheTree(name: string)
      reads this`depth
    {
      exists l: nat :: l < depth && limit < BucketEnd(l, hash(name))
    }

    /**
     * f2fs_find_entry finds every entry, wherever it is, and nothing else.  A miss ends in the BUG of
     * get_node_path exactly when some level has a bucket for the name that ends past the node tree.  Otherwise
     * it leaves a hint for the hash: the one there was, or a level with room, or the last level.
     */
    method FindEntry(name: string) returns (found: bool, blk: nat, pos: nat, bug: bool)
      requires Valid()
      modifies this`chash, this`clevel
      ensures Valid()
      ensures found <==> name in at
      ensures found ==> FoundAt(V(), name, blk, pos)
      ensures bug <==> name !in at && npages != 0 && PastTheTree(name)
      ensures !found && !bug && npages != 0 ==> chash == hash(name)
      ensures old(chash) == hash(name) ==> chash == hash(name) && clevel == old(clevel)
      ensures !found && !bug && npages != 0 && old(chash) != hash(name) && 0 < |name| ==>
        clevel == depth - 1 || RoomAtLevel(name, clevel)
    {
      found, blk, pos, bug := false, 0, 0, false;
      if npages == 0 {
        EmptyView(nr, hash, V(), name);
        return;
      }
      var level := 0;
      while level < depth
        invariant 0 <= level <= depth && Valid() && !found && !bug
        invariant name in at ==> level <= at[name].level
        invariant forall l: nat :: l < level ==> BucketEnd(l, hash(name)) <= limit
        invariant if chash == old(chash) then clevel == old(clevel)
          else chash == hash(name) && (0 < |name| ==> RoomAtLevel(name, clevel))
      {
        found, blk, pos, bug := FindInLevel(level, name);
        if found { return; }
        if bug {
          if name in at { EntryBelowLimit(nr, hash, V(), name, level, limit); }
          return;
        }
        level := level + 1;
      }
      if chash != hash(name) {
        chash, clevel := hash(name), level - 1;
      }
    }

    /** f2fs_inode_by_name is the map lookup, with 0 for a missing name. */
    method InodeByName(name: string) returns (ino: int, bug: bool)
      requires Valid()
      modifies this`chash, this`clevel
      ensures Valid()
      ensures ino == if name in Contents() then Contents()[name] else 0
      ensures bug <==> name !in Contents() && npages != 0 && PastTheTree(name)
    {
      var found, blk, pos;
      found, blk, pos, bug := FindEntry(name);
      ino := 0;
      if found {
        assert Holds(nr, hash(name), V(), name, at[name]);
        ino := blocks[blk].dentry[pos].ino;
      }
    }

    // ----- adding -----

    /** get_new_data_page: a missing block comes into being filled with zeros, and the size grows to cover it. */
    method GetNewDataPage(block: nat)
      requires Sound() && block < limit
      modifies this`blocks, this`live, this`npages
      ensures Sound() && block in blocks && Contents() == old(Contents())
      ensures live == if block in old(live) then old(live) else old(live)[block := {}]
      ensures blocks == if block in old(blocks) then old(blocks) else old(blocks)[block := EmptyBlock(nr)]
    {
      if block !in blocks {
        FreshOk(nr, hash, V(), block, View(blocks[block := EmptyBlock(nr)], live[block := {}], at));
        blocks := blocks[block := EmptyBlock(nr)];
        live := live[block := {}];
      }
      if npages < block + 1 {
        npages := block + 1;
      }
    }

    /** add_dentry: the entry, its name and its bits. */
    method AddDentry(l: Loc, name: string, ino: int)
      requires Sound() && name !in at && 0 < |name| && l.blk in blocks
      requires l.pos < nr && Gap(blocks[l.blk].bitmap, l.pos, Slots(|name|)) && InBucket(l.level, hash(name), l.blk)
      modifies this`blocks, this`live, this`at
      ensures Sound() && Contents() == old(Contents())[name := ino]
      ensures at == old(at)[name := l]
    {
      ghost var view := V();
      var d := Dentry(hash(name), |name|, ino);
      AddableHere(nr, hash, view, l, d, name);
      PutDentry(l, d, name);
      AddOk(nr, hash, view, l, d, name, V());
    }

    method PutDentry(l: Loc, d: Dentry, name: string)
      requires l.blk in blocks && l.blk in live && Sized(nr, blocks[l.blk]) && l.pos < nr
      requires SLOT_LEN * l.pos + |name| <= SLOT_LEN * nr && d.len == |name|
      modifies this`blocks, this`live, this`at
      ensures V() == WithEntry(nr, old(V()), l, d, name)
    {
      var b := blocks[l.blk];
      var bitmap := PutBits(b.bitmap, l.pos, Slots(|name|), true);
      blocks := blocks[l.blk := DentryBlock(bitmap, b.dentry[l.pos := d], Written(b.names, SLOT_LEN * l.pos, name))];
      live := live[l.blk := live[l.blk] + {l.pos}];
      at := at[name := l];
    }

    /** What adding a name looks for. */
    ghost function Need(name: string): Search { Search(nr, limit, hash(name), Slots(|name|)) }

    /** The directory is as in v, but for new blocks without entries. */
    ghost predicate Same(q: Search, v: View, first: map<nat, DentryBlock>)
      reads this`blocks, this`live, this`at, this`npages
    {
      Sound() && at == v.at && Contents() == Names(v) && SameRoom(q, first, blocks)
    }

    /** One block in __f2fs_add_link: the entry is added exactly when the block, possibly a new one, has room. */
    method AddInBlock(level: nat, block: nat, name: string, ino: int, ghost v: View, ghost first: map<nat, DentryBlock>)
      returns (added: bool)
      requires Same(Need(name), v, first) && name !in at && 0 < |name| && block < limit && InBucket(level, hash(name), block)
      modifies this`blocks, this`live, this`at, this`npages
      ensures added <==> Roomy(Need(name), first, block)
      ensures added ==> Sound() && Contents() == Names(v)[name := ino]
      ensures added ==> level < HALF && name in at && at[name].level == level && at == v.at[name := at[name]]
      ensures added ==> at[name].blk == block
      ensures !added ==> Same(Need(name), v, first)
    {
      SlotsBound(|name|);
      ghost var before := blocks;
      GetNewDataPage(block);
      FreshRoom(Need(name), before, blocks, block);
      assert BlockOk(nr, blocks[block], live[block]);
      var pos := RoomForFilename(nr, blocks[block].bitmap, Slots(|name|));
      added := pos < nr;
      if added {
        AddDentry(Loc(level, block, pos), name, ino);
        ShallowBlock(level, hash(name), block);
      }
    }

    /**
     * The blocks of one bucket in __f2fs_add_link.  The entry is added exactly when one of them has room and
     * lies in the node tree; otherwise the BUG is reached exactly when the bucket ends past the node tree.
     */
    method AddInLevel(level: nat, name: string, ino: int, ghost v: View, ghost first: map<nat, DentryBlock>)
      returns (added: bool, bug: bool)
      requires Same(Need(name), v, first) && name !in at && 0 < |name|
      modifies this`blocks, this`live, this`at, this`npages
      ensures added <==> LevelRoom(Need(name), first, level)
      ensures bug <==> !added && Ends(Need(name), level)
      ensures added ==> Sound() && Contents() == Names(v)[name := ino]
      ensures added ==> level < HALF && name in at && at[name].level == level && at == v.at[name := at[name]]
      ensures added ==> FirstRoomy(Need(name), first, level, at[name].blk)
      ensures !added ==> Same(Need(name), v, first)
    {
      var h := hash(name);
      var bidx := DirBlockIndex(level, h % DirBuckets(level));
      var block := bidx;
      ghost var q, end := Need(name), BucketEnd(level, h);
      added, bug := false, false;
      while block <= bidx + BucketBlocks(level) - 1
        invariant bidx <= block <= end && (block > bidx ==> block <= limit) && !added && !bug
        invariant Same(q, v, first) && NoneRoomy(q, first, bidx, block)
        decreases bidx + BucketBlocks(level) - block
      {
        if block >= limit {
          bug := true;
          break;
        }
        added := AddInBlock(level, block, name, ino, v, first);
        if added { break; }
        block := block + 1;
      }
      BucketSearched(q, first, level, block, added);
    }

    /** One level of the search: a level not used so far has room, if its bucket lies in the node tree. */
    method TryLevel(level: nat, name: string, ino: int, ghost v: View, ghost first: map<nat, DentryBlock>) returns (added: bool, bug: bool)
      requires Same(Need(name), v, first) && depth <= HALF && Shallower(at, depth) && level <= HALF && name !in at && 0 < |name|
      modifies this`blocks, this`live, this`at, this`npages
      ensures added <==> LevelRoom(Need(name), first, level)
      ensures bug <==> !added && Ends(Need(name), level)
      ensures added ==> Sound() && Contents() == Names(v)[name := ino]
      ensures added ==> level < HALF && Shallower(at, if depth <= level then level + 1 else depth)
      ensures added ==> name in at && at[name].level == level && FirstRoomy(Need(name), first, level, at[name].blk)
      ensures !added ==> Same(Need(name), v, first) && (!bug ==> level < HALF)
      ensures level == depth && Slots(|name|) <= nr && !Ends(Need(name), depth) ==> added
    {
      if level == depth && Slots(|name|) <= nr && !Ends(Need(name), depth) { FreshLevelHasRoom(Need(name), hash, V(), depth); }
      SameLevelRoom(Need(name), first, blocks, level);
      added, bug := AddInLevel(level, name, ino, v, first);
      if added {
        ShallowerWith(v.at, depth, name, at[name], if depth <= level then level + 1 else depth);
      } else if !bug {
        EndBelowWord(level, hash(name));
      }
    }

    /** The search has come to `level` without finding room; the directory is as it was. */
    ghost predicate Looking(q: Search, v: View, first: map<nat, DentryBlock>, start: nat, level: nat)
      reads this`blocks, this`live, this`at, this`npages, this`depth
    {
      && Same(q, v, first) && depth <= HALF && Shallower(at, depth) && start <= level <= HALF
      && (forall k: nat :: start <= k < level ==> !LevelRoom(q, first, k) && !Ends(q, k))
      && (q.slots <= q.nr ==> level <= depth)
    }

    /** The entry is in, at a level below `newDepth`. */
    ghost predicate Entered(q: Search, v: View, first: map<nat, DentryBlock>, start: nat, name: string, ino: int, newDepth: nat)
      reads this`blocks, this`live, this`at, this`npages, this`depth
    {
      && Sound() && Contents() == Names(v)[name := ino] && RoomFrom(q, first, start)
      && PlacedAt(q, first, start, name, newDepth)
      && depth <= newDepth <= HALF && Shallower(at, newDepth) && (q.slots <= q.nr ==> newDepth <= depth + 1)
    }

    /** Where the entry is, and what depth that makes. */
    ghost predicate PlacedAt(q: Search, first: map<nat, DentryBlock>, start: nat, name: string, newDepth: nat)
      reads this`at, this`depth
    {
      && name in at && Placed(q, first, start, at[name])
      && newDepth == if depth <= at[name].level then at[name].level + 1 else depth
    }

    /** One turn of the loop. */
    method NextLevel(name: string, ino: int, level: nat, ghost v: View, ghost first: map<nat, DentryBlock>, ghost start: nat)
      returns (added: bool, bug: bool)
      requires Looking(Need(name), v, first, start, level) && name !in at && 0 < |name|
      modifies this`blocks, this`live, this`at, this`npages
      ensures added ==> !bug && Entered(Need(name), v, first, start, name, ino, if depth <= level then level + 1 else depth)
      ensures !added && !bug ==> Looking(Need(name), v, first, start, level + 1)
      ensures bug ==> Looking(Need(name), v, first, start, level) && !RoomFrom(Need(name), first, start)
      ensures bug && Slots(|name|) <= nr ==> Ends(Need(name), depth)
    {
      SearchEnds(Need(name), first, start, level);
      if level <= depth { EndsInOrder(level, depth, hash(name)); }
      added, bug := TryLevel(level, name, ino, v, first);
    }

    /**
     * The levels of __f2fs_add_link from `start` on; `currentDepth` is the depth afterwards.  The search goes
     * one level past the depth if need be, until it adds the entry or reaches past the node tree; running out
     * of levels (ENOSPC) would come later than that and never happens.
     */
    method SearchLevels(start: nat, name: string, ino: int) returns (added: bool, noSpace: bool, bug: bool, currentDepth: nat)
      requires Sound() && start <= depth <= HALF && Shallower(at, depth) && name !in at && 0 < |name|
      modifies this`blocks, this`live, this`at, this`npages
      ensures Sound() && !noSpace && (bug <==> !added)
      ensures added <==> RoomFrom(Need(name), old(blocks), start)
      ensures Contents() == if added then old(Contents())[name := ino] else old(Contents())
      ensures added ==> depth <= currentDepth <= HALF && Shallower(at, currentDepth)
      ensures added ==> PlacedAt(Need(name), old(blocks), start, name, currentDepth)
      ensures !added ==> at == old(at)
      ensures Slots(|name|) <= nr ==> added ==> currentDepth <= depth + 1
      ensures Slots(|name|) <= nr && !Ends(Need(name), depth) ==> added
    {
      ghost var first, v := blocks, V();
      var level := start;
      currentDepth := depth;
      added, noSpace, bug := false, false, false;
      while !added && !bug
        invariant !noSpace && !(added && bug)
        invariant !added ==> Looking(Need(name), v, first, start, level)
        invariant !added && !bug ==> currentDepth == if depth < level then level else depth
        invariant added ==> Entered(Need(name), v, first, start, name, ino, currentDepth)
        invariant bug ==> !RoomFrom(Need(name), first, start) && (Slots(|name|) <= nr ==> Ends(Need(name), depth))
        decreases MAX_DIR_HASH_DEPTH - level, !added && !bug
      {
        if currentDepth == MAX_DIR_HASH_DEPTH {
          noSpace := true;
          break;
        }
        if level == currentDepth {
          currentDepth := currentDepth + 1;
        }
        added, bug := NextLevel(name, ino, level, v, first, start);
        if !added && !bug {
          level := level + 1;
        }
      }
    }

    /** The level to start with: the one where a lookup of this hash saw room, if it was the last to leave a hint. */
    method TakeHint(name: string) returns (level: nat)
      requires clevel < depth
      modifies this`chash
      ensures level < depth && level == if old(chash) == hash(name) then clevel else 0
    {
      level := 0;
      if chash == hash(name) {
        level := clevel;
        chash := 0;
      }
    }

    /**
     * __f2fs_add_link.  The caller has found no entry of that name; the hint left by a lookup may start the
     * search at any level below the depth.  It ends in the BUG of get_node_path exactly when no level from
     * there on has a block with room in the node tree before the first bucket that ends past it.  Otherwise the
     * entry is in the first block with room, and the depth is the old one or just covers its level.
     */
    method AddLink(name: string, ino: int) returns (noSpace: bool, bug: bool)
      requires Valid() && name !in at && 0 < |name|
      modifies this
      ensures !noSpace && Valid()
      ensures Contents() == if bug then old(Contents()) else old(Contents())[name := ino]
      ensures bug <==> !RoomFrom(Need(name), old(blocks), if old(chash) == hash(name) then old(clevel) else 0)
      ensures bug ==> depth == old(depth)
      ensures !bug ==> name in at && Placed(Need(name), old(blocks), if old(chash) == hash(name) then old(clevel) else 0, at[name])
      ensures !bug ==> depth == if old(depth) <= at[name].level then at[name].level + 1 else old(depth)
      ensures old(depth) <= depth && (Slots(|name|) <= nr ==> depth <= old(depth) + 1)
      ensures Slots(|name|) <= nr && !Ends(Need(name), old(depth)) ==> !bug
    {
      ghost var view := V();
      var level := TakeHint(name);
      assert V() == view;
      noSpace, bug := AddFrom(level, name, ino);
    }

    /** The search from a level on, and the new depth. */
    method AddFrom(start: nat, name: string, ino: int) returns (noSpace: bool, bug: bool)
      requires Valid() && start < depth && name !in at && 0 < |name|
      modifies this`blocks, this`live, this`at, this`npages, this`depth
      ensures !noSpace && Valid() && (bug <==> !RoomFrom(Need(name), old(blocks), start))
      ensures Contents() == if bug then old(Contents()) else old(Contents())[name := ino]
      ensures bug ==> depth == old(depth)
      ensures !bug ==> name in at && Placed(Need(name), old(blocks), start, at[name])
      ensures !bug ==> depth == if old(depth) <= at[name].level then at[name].level + 1 else old(depth)
      ensures old(depth) <= depth && (Slots(|name|) <= nr ==> depth <= old(depth) + 1)
      ensures Slots(|name|) <= nr && !Ends(Need(name), old(depth)) ==> !bug
    {
      var added, currentDepth;
      added, noSpace, bug, currentDepth := SearchLevels(start, name, ino);
      if added {
        depth := currentDepth;
      }
    }

    // ----- deleting -----

    /** The bits of one entry are cleared; its slot and its name stay behind. */
    method ClearDentry(ghost name: string, blk: nat, pos: nat)
      requires Sound() && name in at && at[name].blk == blk && at[name].pos == pos
      requires blk in blocks && pos < |blocks[blk].dentry|
      modifies this`blocks, this`live, this`at
      ensures Sound() && blk in blocks && Contents() == old(Contents()) - {name} && at == old(at) - {name}
      ensures blocks == old(blocks)[blk := blocks[blk]]
    {
      assert Holds(nr, hash(name), V(), name, at[name]);
      assert BlockOk(nr, blocks[blk], live[blk]) && EntryOk(nr, blocks[blk], pos);
      DeleteOk(nr, hash, V(), at[name], name);
      var bitmap := PutBits(blocks[blk].bitmap, pos, Slots(blocks[blk].dentry[pos].len), false);
      blocks := blocks[blk := blocks[blk].(bitmap := bitmap)];
      live := live[blk := live[blk] - {pos}];
      at := at - {name};
    }

    /** f2fs_delete_entry on what a lookup returned; a block without entries becomes a hole. */
    method DeleteEntry(ghost name: string, blk: nat, pos: nat)
      requires Valid() && FoundAt(V(), name, blk, pos)
      requires blk in blocks && pos < |blocks[blk].dentry|
      modifies this`blocks, this`live, this`at
      ensures Valid() && Contents() == old(Contents()) - {name}
      ensures blk in blocks <==> HasName(at, blk)
      ensures blocks == if blk in blocks then old(blocks)[blk := blocks[blk]] else old(blocks) - {blk}
    {
      ghost var before := blocks;
      ForgetName(name, blk, pos);
      PutAndDrop(before, blk, blocks[blk]);
      DropIfEmpty(blk);
    }

    method ForgetName(ghost name: string, blk: nat, pos: nat)
      requires Valid() && FoundAt(V(), name, blk, pos)
      requires blk in blocks && pos < |blocks[blk].dentry|
      modifies this`blocks, this`live, this`at
      ensures Valid() && blk in blocks && Contents() == old(Contents()) - {name} && blocks == old(blocks)[blk := blocks[blk]]
    {
      ClearDentry(name, blk, pos);
      ShallowerWithout(old(at), depth, name);
    }

    /** The block becomes a hole exactly when no name is left in it. */
    method DropIfEmpty(blk: nat)
      requires Valid() && blk in blocks
      modifies this`blocks, this`live
      ensures Valid() && Contents() == old(Contents())
      ensures blk in blocks <==> HasName(at, blk)
      ensures blocks == if blk in blocks then old(blocks) else old(blocks) - {blk}
    {
      BlockUse(nr, hash, V(), blk);
      if NextOne(blocks[blk].bitmap, 0) == nr {
        PunchHole(blk);
      }
    }

    /** truncate_hole on one block. */
    method PunchHole(blk: nat)
      requires Sound() && blk in blocks && NextOne(blocks[blk].bitmap, 0) == nr
      modifies this`blocks, this`live
      ensures Sound() && Contents() == old(Contents()) && at == old(at) && blocks == old(blocks) - {blk}
    {
      assert BlockOk(nr, blocks[blk], live[blk]);
      NoBitsNoEntries(nr, blocks[blk], live[blk]);
      HoleOk(nr, hash, V(), blk, View(blocks - {blk}, live - {blk}, at));
      blocks := blocks - {blk};
      live := live - {blk};
    }
  }

  /** A search for room: the block size, the node tree, the hash of the name and its number of slots. */
  datatype Search = Search(nr: nat, limit: nat, h: nat, slots: nat)

  /** A block has a gap that is long enough; a missing one would be all gap. */
  ghost predicate Roomy(q: Search, blocks: map<nat, DentryBlock>, b: nat) {
    if b in blocks then HasGap(blocks[b].bitmap, q.slots) else q.slots <= q.nr
  }

  ghost predicate HasGap(bitmap: seq<bool>, n: nat) {
    exists z: nat :: Gap(bitmap, z, n)
  }

  ghost predicate SameRoom(q: Search, before: map<nat, DentryBlock>, after: map<nat, DentryBlock>) {
    forall b: nat :: Roomy(q, before, b) <==> Roomy(q, after, b)
  }

  /** Some block of the bucket lies in the node tree and has room. */
  ghost predicate LevelRoom(q: Search, blocks: map<nat, DentryBlock>, level: nat) {
    exists b: nat :: InBucket(level, q.h, b) && b < q.limit && Roomy(q, blocks, b)
  }

  ghost predicate NoneRoomy(q: Search, blocks: map<nat, DentryBlock>, lo: nat, hi: nat) {
    forall b: nat :: lo <= b < hi ==> !Roomy(q, blocks, b)
  }

  /** The blocks of a bucket searched up to one that has room, to the node tree's end, or to the bucket's. */
  lemma BucketSearched(q: Search, blocks: map<nat, DentryBlock>, level: nat, block: nat, found: bool)
    requires BlockIndex(level, Bucket(level, q.h)) <= block <= BucketEnd(level, q.h)
    requires NoneRoomy(q, blocks, BlockIndex(level, Bucket(level, q.h)), block)
    requires found ==> block < q.limit && block < BucketEnd(level, q.h) && Roomy(q, blocks, block)
    requires !found ==> block >= q.limit || block == BucketEnd(level, q.h)
    ensures found <==> LevelRoom(q, blocks, level)
    ensures found ==> FirstRoomy(q, blocks, level, block)
  {
    if found { assert InBucket(level, q.h, block); }
  }

  /** The bucket ends past the node tree. */
  ghost predicate Ends(q: Search, level: nat) {
    q.limit < BucketEnd(level, q.h)
  }

  /** The first block with room in the bucket, and it lies in the node tree. */
  ghost predicate FirstRoomy(q: Search, blocks: map<nat, DentryBlock>, level: nat, b: nat) {
    && InBucket(level, q.h, b) && b < q.limit && Roomy(q, blocks, b)
    && NoneRoomy(q, blocks, BlockIndex(level, Bucket(level, q.h)), b)
  }

  /** The place is the first block with room of the first level from `start` on that has one. */
  ghost predicate Placed(q: Search, blocks: map<nat, DentryBlock>, start: nat, l: Loc) {
    && start <= l.level && FirstRoomy(q, blocks, l.level, l.blk)
    && forall k: nat :: start <= k < l.level ==> !LevelRoom(q, blocks, k)
  }

  /** Some level from `start` on has room, and no level before it ends past the node tree. */
  ghost predicate RoomFrom(q: Search, blocks: map<nat, DentryBlock>, start: nat) {
    exists l: nat :: start <= l && LevelRoom(q, blocks, l) && forall k: nat :: start <= k < l ==> !Ends(q, k)
  }

  lemma SameLevelRoom(q: Search, before: map<nat, DentryBlock>, after: map<nat, DentryBlock>, level: nat)
    requires SameRoom(q, before, after)
    ensures LevelRoom(q, before, level) <==> LevelRoom(q, after, level)
  {
  }

  /** A new block has as much room as the missing one it replaces. */
  lemma FreshRoom(q: Search, before: map<nat, DentryBlock>, after: map<nat, DentryBlock>, b: nat)
    requires after == if b in before then before else before[b := EmptyBlock(q.nr)]
    ensures SameRoom(q, before, after)
  {
    if b !in before {
      assert q.slots <= q.nr ==> Gap(EmptyBlock(q.nr).bitmap, 0, q.slots);
    }
  }

  /** How the search ends, given what it found at the level it stopped at. */
  lemma SearchEnds(q: Search, blocks: map<nat, DentryBlock>, start: nat, level: nat)
    requires start <= level && forall k: nat :: start <= k < level ==> !LevelRoom(q, blocks, k) && !Ends(q, k)
    ensures LevelRoom(q, blocks, level) ==> RoomFrom(q, blocks, start)
    ensures !LevelRoom(q, blocks, level) && Ends(q, level) ==> !RoomFrom(q, blocks, start)
  {
  }

  /** No block of the bucket holds an entry. */
  ghost predicate BucketEmpty(v: View, level: nat, h: nat) {
    forall b: nat :: InBucket(level, h, b) && b in v.live ==> v.live[b] == {}
  }

  /** A level nothing was added at has room for any name that fits a block, if its bucket lies in the node tree. */
  lemma FreshLevelHasRoom(q: Search, hash: string -> nat, v: View, depth: nat)
    requires ViewOk(q.nr, hash, v) && Shallower(v.at, depth) && depth <= HALF && q.slots <= q.nr && !Ends(q, depth)
    ensures LevelRoom(q, v.blocks, depth)
  {
    FreshLevelEmpty(q.nr, hash, v, depth, q.h);
    var b := BlockIndex(depth, Bucket(depth, q.h));
    assert InBucket(depth, q.h, b);
    if b in v.blocks {
      assert BlockOk(q.nr, v.blocks[b], v.live[b]);
      NoEntriesNoBits(q.nr, v.blocks[b], v.live[b], q.slots);
    }
    assert Roomy(q, v.blocks, b);
  }

  /** A level nothing was added at has empty buckets, because buckets of different levels share no block. */
  lemma {:induction false} FreshLevelEmpty(nr: nat, hash: string -> nat, v: View, depth: nat, h: nat)
    requires ViewOk(nr, hash, v) && Shallower(v.at, depth) && depth <= HALF
    ensures BucketEmpty(v, depth, h)
  {
    forall b: nat | InBucket(depth, h, b) && b in v.live ensures v.live[b] == {} {
      if v.live[b] != {} {
        var p :| p in v.live[b];
        assert Back(nr, v, b, p);
        var n := NameAt(v.blocks[b], p);
        assert Holds(nr, hash(n), v, n, v.at[n]);
        BucketsDisjoint(depth, h, v.at[n].level, hash(n), b);
      }
    }
  }

  ghost predicate Shallower(at: map<string, Loc>, depth: nat) {
    forall n :: n in at ==> at[n].level < depth
  }

  lemma ShallowerWith(at: map<string, Loc>, depth: nat, name: string, l: Loc, depth': nat)
    requires Shallower(at, depth) && depth <= depth' && l.level < depth'
    ensures Shallower(at[name := l], depth')
  {
  }

  lemma ShallowerWithout(at: map<string, Loc>, depth: nat, name: string)
    requires Shallower(at, depth)
    ensures Shallower(at - {name}, depth)
  {
  }

  // ----- where the node tree ends -----

  /** The range of a lookup below level 31, as it is computed in unsigned ints, is the bucket. */
  lemma LookupEnds(level: nat, h: nat, bidx: nat, end: nat)
    requires level < HALF && forall b: nat :: Visited(level, h, b) <==> bidx <= b < end
    ensures bidx == BlockIndex(level, Bucket(level, h)) && bidx < end == BucketEnd(level, h)
  {
    var first, last := BlockIndex(level, Bucket(level, h)), BucketEnd(level, h);
    ShallowVisits(level, h, first);
    ShallowVisits(level, h, last - 1);
    ShallowVisits(level, h, last);
    ShallowVisits(level, h, bidx);
    ShallowVisits(level, h, end);
  }

  /** If no block of a bucket matches, the name was not added at that level. */
  lemma MissedAtLevel(nr: nat, hash: string -> nat, v: View, level: nat, name: string)
    requires NamesOk(nr, hash, v)
    requires AllMiss(nr, hash(name), v, name, BlockIndex(level, Bucket(level, hash(name))), BucketEnd(level, hash(name)))
    ensures name in v.at ==> v.at[name].level != level
  {
    if name in v.at {
      var l := v.at[name];
      assert Holds(nr, hash(name), v, name, l);
      assert l.level == level ==> NoMatch(nr, hash(name), v, l.blk, name);
    }
  }

  /** An entry lies below the limit, and behind the buckets of all earlier levels. */
  lemma EntryBelowLimit(nr: nat, hash: string -> nat, v: View, name: string, level: nat, limit: nat)
    requires ViewOk(nr, hash, v) && name in v.at && level < v.at[name].level < HALF
    requires forall b :: b in v.blocks ==> b < limit
    ensures BucketEnd(level, hash(name)) <= limit
  {
    assert Holds(nr, hash(name), v, name, v.at[name]);
    LevelsInOrder(level, hash(name), v.at[name].level, hash(name), v.at[name].blk);
  }

  /** A node tree over blocks that hold at most 1024 addresses ends before block indices outgrow 32 bits. */
  lemma TreeFitsWord(s: NodePath.Shape)
    requires s.inodeAddrs <= 1024 && s.blockAddrs <= 1024 && s.nids <= 1024
    ensures s.Limit() <= WORD - 2
  {
    MulLe(s.blockAddrs, 1024, s.nids);
    assert s.blockAddrs * s.nids <= 1024 * s.nids <= 1024 * 1024;
    MulLe(s.blockAddrs * s.nids, 1024 * 1024, s.nids);
  }

  lemma AddableHere(nr: nat, hash: string -> nat, v: View, l: Loc, d: Dentry, name: string)
    requires ViewOk(nr, hash, v) && name !in v.at && 0 < |name| && l.blk in v.blocks && d.hash == hash(name) && d.len == |name|
    requires l.pos < nr && InBucket(l.level, hash(name), l.blk) && Gap(v.blocks[l.blk].bitmap, l.pos, Slots(|name|))
    ensures CanAdd(nr, hash, v, l, d, name) && Sized(nr, v.blocks[l.blk])
    ensures SLOT_LEN * l.pos + |name| <= SLOT_LEN * nr
  {
    assert BlockOk(nr, v.blocks[l.blk], v.live[l.blk]);
    FitsArea(nr, l.pos, |name|);
  }

  lemma AddOk(nr: nat, hash: string -> nat, v: View, l: Loc, d: Dentry, name: string, w: View)
    requires CanAdd(nr, hash, v, l, d, name) && w == WithEntry(nr, v, l, d, name)
    ensures ViewOk(nr, hash, w) && Names(w) == Names(v)[name := d.ino]
  {
    AddBlocks(nr, hash, v, l, d, name);
    AddNames(nr, hash, v, l, d, name);
    AddBack(nr, hash, v, l, d, name);
    AddContents(nr, hash, v, l, d, name);
  }

  lemma PutAndDrop(m: map<nat, DentryBlock>, k: nat, x: DentryBlock)
    ensures m[k := x] - {k} == m - {k}
  {
  }

  /** Some name lies in the block. */
  ghost predicate HasName(at: map<string, Loc>, b: nat) {
    exists n :: n in at && at[n].blk == b
  }

  lemma UsedHasName(nr: nat, hash: string -> nat, v: View, b: nat)
    requires ViewOk(nr, hash, v) && b in v.blocks && NextOne(v.blocks[b].bitmap, 0) < nr
    ensures HasName(v.at, b)
  {
    assert BlockOk(nr, v.blocks[b], v.live[b]);
    NextStart(nr, v.blocks[b], v.live[b], 0);
    assert Back(nr, v, b, NextOne(v.blocks[b].bitmap, 0));
  }

  lemma NameUses(nr: nat, hash: string -> nat, v: View, b: nat, n: string)
    requires ViewOk(nr, hash, v) && n in v.at && v.at[n].blk == b
    ensures b in v.blocks && NextOne(v.blocks[b].bitmap, 0) < nr
  {
    assert Holds(nr, hash(n), v, n, v.at[n]);
    StartUses(nr, v.blocks[b], v.live[b], v.at[n].pos);
  }

  lemma StartUses(nr: nat, b: DentryBlock, starts: set<nat>, p: nat)
    requires BlockOk(nr, b, starts) && p in starts
    ensures NextOne(b.bitmap, 0) < nr
  {
    NextStart(nr, b, starts, 0);
    assert EntryOk(nr, b, p);
  }

  /** A block has set bits exactly if some name lies in it. */
  lemma BlockUse(nr: nat, hash: string -> nat, v: View, b: nat)
    requires ViewOk(nr, hash, v) && b in v.blocks
    ensures |v.blocks[b].bitmap| == nr && (NextOne(v.blocks[b].bitmap, 0) == nr <==> !HasName(v.at, b))
  {
    assert BlockOk(nr, v.blocks[b], v.live[b]);
    if NextOne(v.blocks[b].bitmap, 0) < nr { UsedHasName(nr, hash, v, b); }
    if n: string :| n in v.at && v.at[n].blk == b { NameUses(nr, hash, v, b, n); }
  }

  lemma EmptyView(nr: nat, hash: string -> nat, v: View, name: string)
    requires ViewOk(nr, hash, v) && v.blocks == map[]
    ensures name !in v.at
  {
    assert name in v.at ==> Holds(nr, hash(name), v, name, v.at[name]);
  }

  // ----- a directory on which lookups and additions fail -----

  /** Block 0 belongs to a bucket of level 0 only. */
  lemma OnlyLevelZero(level: nat, h: nat)
    requires InBucket(level, h, 0)
    ensures level == 0
  {
    if level < HALF { BucketStart(level, h); } else { DeepVisits(level, h, 0); }
  }

  /** An entry fills a block of one slot. */
  lemma FullBlock(b: DentryBlock, starts: set<nat>, p: nat)
    requires BlockOk(1, b, starts) && p in starts
    ensures !HasGap(b.bitmap, 1)
  {
    assert EntryOk(1, b, p);
    SlotsBound(b.dentry[p].len);
    forall z: nat ensures !Gap(b.bitmap, z, 1) {
      assert b.bitmap[0];
    }
  }

  /** One entry in a directory whose blocks have one slot and whose node tree has one block: that block is full. */
  lemma NoRoomBeside(hash: string -> nat, v: View, name: string)
    requires ViewOk(1, hash, v) && name in v.at && forall b :: b in v.blocks ==> b < 1
    ensures 0 in v.blocks && !HasGap(v.blocks[0].bitmap, 1)
  {
    var l := v.at[name];
    assert Holds(1, hash(name), v, name, l);
    assert BlockOk(1, v.blocks[l.blk], v.live[l.blk]);
    FullBlock(v.blocks[l.blk], v.live[l.blk], l.pos);
  }

  /** A directory with blocks of one slot and a node tree of one block. */
  ghost predicate Tiny(d: Dir)
    reads d
  {
    d.Valid() && d.nr == 1 && d.limit == 1
  }

  lemma TinyEnds(h: nat)
    ensures BucketEnd(0, h) == 2
  {
    BucketStart(0, h);
  }

  lemma TinyRoom(d: Dir, name: string)
    requires Tiny(d) && |name| == 1 && d.blocks == map[]
    ensures RoomFrom(d.Need(name), d.blocks, 0)
  {
    BucketStart(0, d.hash(name));
    assert InBucket(0, d.hash(name), 0) && Roomy(d.Need(name), d.blocks, 0);
    SearchEnds(d.Need(name), d.blocks, 0, 0);
  }

  lemma NoRoomAtAll(q: Search, blocks: map<nat, DentryBlock>, start: nat)
    requires q.limit == 1 && !Roomy(q, blocks, 0)
    ensures !RoomFrom(q, blocks, start)
  {
  }

  lemma TinyIsFull(d: Dir, inside: string, start: nat, name: string)
    requires Tiny(d) && |name| == 1 && inside in d.at
    ensures !RoomFrom(d.Need(name), d.blocks, start) && d.npages != 0 && d.PastTheTree(name)
  {
    NoRoomBeside(d.hash, d.V(), inside);
    TinyEnds(d.hash(name));
    NoRoomAtAll(d.Need(name), d.blocks, start);
  }

  /**
   * With one entry in such a directory, the lookup of another name and its addition both reach the BUG, though
   * the name would fit a block.
   */
  method SmallDirectoryFails(hash: string -> nat) returns (d: Dir, missBug: bool, addBug: bool)
    ensures fresh(d) && Tiny(d) && d.Contents() == map["a" := 3] && missBug && addBug
  {
    d := new Dir(1, hash, 1);
    var noSpace, found, blk, pos;
    TinyRoom(d, "a");
    noSpace, addBug := d.AddLink("a", 3);
    OnlyName(d, "a", "b");
    TinyIsFull(d, "a", d.clevel, "b");
    found, blk, pos, missBug := d.FindEntry("b");
    TinyIsFull(d, "a", d.clevel, "b");
    TinyIsFull(d, "a", 0, "b");
    noSpace, addBug := d.AddLink("b", 4);
  }

  lemma OnlyName(d: Dir, name: string, other: string)
    requires d.Contents().Keys == {name} && name != other
    ensures name in d.at && other !in d.at
  {
    assert d.Contents().Keys == d.at.Keys;
  }
}
