# Verified models of the f2fs file system and of four smaller programs

This project models the core of the f2fs sources (`filesystem/f2fs`) and four self-contained programs of the
repository, and proves what their design promises. The f2fs part follows the in-memory state that the code changes
step by step, one lock-protected section being one atomic step.

* Segment manager: `Bitmaps`, `RevBits`, `Geometry`, `FreeSegmap`, `DirtySeglist`, `SitInfo` hold the tables and their
  counters; `SegmentState` and `SegmentRuns` specify allocation, invalidation and checkpoint as functions of one state
  with an arbitrary legal policy, and prove the run-level theorems; `SegmentMount` is the reconstruction at mount;
  `SegmentPolicy`, `VictimScan` and the class in `SegmentManager` are the loops and in-place updates of the source, proved to do what
  the functions say, with the word-wise bitmap search of `RevBits` and the SIT blocks and SIT journal of `SitArea`.
* Roll-forward chain: `RollForward`, on top of the segment state, and the end of the recovery walk in `RecoveryWalk`.
* `TableLayout`: a table on disk as a journal over paired blocks, shared by `SitArea` and the node address table, whose
  class is in `NatManager`.
* Checkpoint packs: `CheckpointPack`; `CheckpointAtomicity` composes them with the two tables and the segment manager
  to a crash at any point of a checkpoint. Orphan inodes: `Orphans` (the list and its blocks) and `OrphanRuns` (the protocol
  under the checkpoint lock).
* Block index and truncation: `NodePath`, `NodeTree`, `FileMap` and the class in `Truncate`.
* Directory: `DirLayout`, `DirBlock`, `DirEntries`, `Directory`. Extended attributes: `XattrFormat`, `XattrBuffer`,
  `XattrStore`. Extent cache: `ExtentCache`. Free node ids: `FreeNidPool`, `FreeNidRuns`, `FreeNids`. Compacted
  summaries: `CompactSummaries`.
* `RingCopy` (two processes and a ring of buffers), `ShortestPaths`, `Regex` (two matchers), `Queens`.

The whole project can be verified with `dafny verify dfyconfig.toml`. Names of the C functions appear in the comment of the member that
models them. A method is proved against a specification function or predicate, and the promises are lemmas about that.

## What turned out not to hold everywhere

* Checkpoint packs (`CheckpointPack.NextIsAllOrNothingIff`, `CheckpointPack.TwoCrashesMayMix`): a crash during a
  checkpoint mounts the old or the complete new pack, except when an earlier interrupted attempt at the same version has
  left its head or tail behind; then head and tail of two attempts can be taken for one pack. The condition is exact, in
  terms of the disk (`AllOrNothingIff`) and of the attempts made; the first attempt at a version always meets it.
* Roll-forward (`RollForward.RecoveryFindsTheRunIff`, `RollForward.LostBlockIsWalked`): a crash after which recovery finds
  nothing fsynced is not followed by a checkpoint, so the version stays while lost blocks remain on the disk. After the
  next crash the walk may run on into them: exactly when the block behind the last one written carries the version. It
  may even not end (`RecoveryWalk.EndsIff`, `RecoveryWalk.SmallMachineLoops`): exactly when it comes back to a block, as it
  does when two lost segments are filled again in the other order.
* Free node ids (`FreeNidRuns.AlwaysFreeIff`, `FreeNidRuns.OvertakingBreaksIff`, `FreeNidRuns.LiveIdGivenTwice`):
  `add_free_nid` checks the NAT cache and inserts under different locks. An id finished in between comes back on the list
  while in use, unless its address is NULL again by then or the journal still removes it.
* Free node ids (`FreeNids.NmInfo.Rounds`, `FreeNids.FullVolumeNeverAnswers`): the node count, which leaves out ids 0, 1
  and 2, is all that `alloc_nid` looks at before it searches. Its retry loop ends exactly when some id is on offer or can
  be listed; on a volume whose ids are all taken it passes the guard and goes on for ever.
* Bitmap search (`RevBits.LinearIff`): `__find_rev_next_zero_bit` masks the end of the bitmap in plain bit numbers, so it
  is a linear search only for sizes of whole bytes. Every validity bitmap has such a size.
* Directories (`Directory.Dir.FindEntry`, `Directory.Dir.AddLink`, `Directory.TreeFitsWord`): the 32-bit block indices of
  a lookup would miss entries from level 31 on (`DirLayout.VisitsBucket`), but the node tree ends before that level. What
  ends a directory is the BUG of `get_node_path` for a bucket past the node tree: when an entry is added and finds no
  room before, and already when a lookup misses. Both conditions are exact, and `Directory.SmallDirectoryFails` has an
  input for both. ENOSPC for want of levels is never reached.
* Truncation (`Truncate.Inode.TruncateBlocks`): inside the last direct node of the tree the block behind it has no
  path, and the code reaches its BUG; `Truncate.TruncatingTheLastNodeFails` is such a file.
* Regular expressions (`Regex.MatchersAgreeIff`): two adjacent stars may be read differently by the two matchers; the
  exact condition is on the pattern alone.

## Assumptions

* Constants of the kernel header that the repository does not contain are parameters (segment, page and entry sizes,
  addresses per node, NODE_DIR1_BLOCK, MAX_FREE_NIDS); only MAX_DIR_HASH_DEPTH (63), the name slot length (8), the
  xattr header sizes and the 64-bit word length are fixed to their kernel values; a segment has a multiple of 8 blocks.
* Memory allocation and reads succeed, and every submitted write reaches the disk before the next checkpoint; in a crash
  during a checkpoint any of the waiting writes may be lost, but the pack is submitted after all pages of the SIT and NAT
  areas have been written (checkpoint.c:674-676, 771-775) and is one write (781-782), so with its head and tail its
  summaries are on disk. The checkpoint CRC is a perfect check, the directory hash an arbitrary function.
* Roll-forward: data blocks do not parse as node footers. A crash that recovery answers with a checkpoint shows in a run
  as that checkpoint; what recovery writes before it is not modelled.
* Operations on orphans run in `f2fs_lock_op` sections and checkpoints take that lock exclusively; a name is removed only
  from an inode that has links, an inode is evicted only when it has none, and its number is reused only after that.
* Names of directory entries are not empty and fit a block, and attribute name indices are not 0, as the VFS and the
  handlers guarantee. `AddLink` is called for names not found. The node tree of a directory has at most 2^32 - 2 blocks.
* Free ids are taken, finished and returned under the protocol of the callers, and no checkpoint flush runs while the
  builder does, since both sides hold the checkpoint lock. The list limit, twice MAX_FREE_NIDS or eight NAT blocks of ids
  in the kernel, leaves room for FREE_NID_PAGES + 2, that is six, such blocks and the journal.
* Shortest paths: positive costs off the diagonal, and path lengths without repeated vertices below MAX; regular
  expressions: patterns that are not empty and do not begin with a star, since the table is read out of bounds otherwise.

## Model

| member | source | states |
|---|---|---|
| SegmentRuns.EveryRunIsSafe | filesystem/f2fs/segment.c:857-901 | In every run of allocations, invalidations and checkpoints, by any legal allocation policy, the six logs never share a segment, next_blkoff is below blocks_per_seg, and each allocated block is neither live now nor live in the last checkpoint; the run is checked against two plain sets of blocks that know nothing of segments |
| SegmentRuns.AllocatedIsFresh | filesystem/f2fs/segment.c:857-901 | The block handed out is a hole of both validity maps and lies in the main area; afterwards exactly that block is newly valid and exactly the replaced block is no longer valid; checkpointed maps stay |
| SegmentRuns.AllocateKeeps | filesystem/f2fs/segment.c:857-901 | The whole invariant (logs on different segments, offsets below the segment size, counters, classes) survives an allocation whatever the policy chooses |
| SegmentRuns.ChoiceIsNew | filesystem/f2fs/segment.c:647-730 | A log never moves onto the segment it just left nor onto a segment of another log |
| SegmentRuns.AllocateTyp | filesystem/f2fs/segment.c:732-747 | A segment changes its type only when it was free or was taken as a victim from a list its log may use; the warm node log takes no victims |
| SegmentRuns.InvalidateMaps | filesystem/f2fs/segment.c:445-463 | Invalidation makes exactly one block invalid and leaves the checkpointed maps alone |
| SegmentRuns.CheckpointKeeps | filesystem/f2fs/checkpoint.c:663-828 | A checkpoint keeps the invariant, makes the checkpointed maps equal to the current ones and leaves no segment prefree |
| SegmentRuns.ExactlyOneClass | filesystem/f2fs/segment.c:198-268 | Between checkpoints every segment is exactly one of free, current, prefree, dirty and full; free and prefree ones hold no valid block, dirty ones some but not all |
| SegmentRuns.CountersMatch | filesystem/f2fs/segment.h:307-371 | nr_dirty, free_segments and free_sections equal the counts of their bitmaps, nr_dirty of DIRTY is the sum over the six types, and the written block count is the sum of the valid counts up to a constant |
| SegmentState.LocateOk | filesystem/f2fs/segment.c:198-268 | locate_dirty_segment puts the marks of a lagging segment right and touches no other segment |
| SegmentState.VictimHasHole | filesystem/f2fs/segment.c:667-683 | A victim whose ckpt_valid_blocks is below blocks_per_seg has a block that is free in both maps, and the search finds the first one |
| SegmentState.ReuseOk | filesystem/f2fs/segment.c:703-730 | change_curseg onto a victim keeps the invariant up to the segment left behind, and the new offset is below the segment size |
| SegmentState.OpenOk | filesystem/f2fs/segment.c:647-665 | new_curseg onto a free segment keeps the invariant up to the segment left behind |
| SegmentState.TakeKeeps | filesystem/f2fs/segment.c:398-443 | Setting the bit of the next block in the maps keeps every count and class consistent |
| SegmentState.NextOffIsNextHole | filesystem/f2fs/segment.c:690-697 | A log goes on at the first hole behind the block it hands out, in LFS and in SSR mode alike, or is full |
| SegmentState.VictimMarks | filesystem/f2fs/segment.c:219-238 | Taking a segment off the dirty lists clears the victim mark of its section exactly when no block of the whole section is valid; no other mark changes |
| SegmentState.DropKeeps | filesystem/f2fs/segment.c:398-435 | Clearing the bit of a valid block leaves only its own segment to be reclassified |
| SitInfo.UpdateSitOk | filesystem/f2fs/segment.c:398-435 | valid_blocks, ckpt_valid_blocks, the section totals and the written count stay equal to what the bitmaps say, ckpt_valid_blocks being the bits of the union of both maps |
| SitInfo.FlushOk | filesystem/f2fs/segment.c:1388-1457 | Flushing keeps all counts and makes each checkpointed map equal to the current one |
| FreeSegmap.SetInuseOk | filesystem/f2fs/segment.h:326-371 | A segment taken into use: only its bit changes, and a section bit is clear exactly when all its segments are free |
| FreeSegmap.SetFreeOk | filesystem/f2fs/segment.h:307-357 | A segment freed: the same, with the section freed when its last segment is |
| FreeSegmap.SectionScan | filesystem/f2fs/segment.h:307-324 | Searching the next used segment from the section start tells whether the whole section is free |
| DirtySeglist.TypedCountersAddUp | filesystem/f2fs/segment.h:426-434 | The six typed dirty counters add up to the counter of all dirty segments |
| Geometry.AddressRoundTrip | filesystem/f2fs/segment.h:653-672 | A main-area block has an address that is neither NULL_ADDR nor NEW_ADDR and leads back to the block |
| Geometry.BlockRoundTrip | filesystem/f2fs/segment.h:557-565 | Every main-area address is the address of exactly one block |
| Geometry.AddressesRunOn | filesystem/f2fs/segment.h:557-565 | Addresses run on from block to block and from segment to segment, from the start of the main area |
| SegmentMount.MountOk | filesystem/f2fs/segment.c:1781-1831 | The tables rebuilt at mount satisfy the invariant and show the blocks of the image, live and durable |
| SegmentMount.CheckpointRemounts | filesystem/f2fs/segment.c:1628-1715 | Any checkpoint can be mounted, and mounting it restores the same logs and the same live and durable blocks |
| SegmentPolicy.GetNewSegment | filesystem/f2fs/segment.c:535-622 | It terminates and returns a free segment whenever a section is free: the first free segment further right in the same section when no new section is asked for, else the first of the section that the zone search takes |
| SegmentPolicy.FindFreeSection | filesystem/f2fs/segment.c:535-622 | Which section the zone search takes: the nearest free one to the right of the old segment, or, once it has to turn left, the nearest to the left or else the first of the volume; that one is kept if the search turned left, or no log has its zone, or no other zone may be tried; otherwise the same search from the start of the next zone on decides |
| SegmentPolicy.ScanLeft | filesystem/f2fs/segment.c:572-582 | Scanning to the left ends on the nearest free section, or wraps to the first one of the volume |
| SegmentPolicy.RightNeighbour | filesystem/f2fs/segment.c:550-556 | The first free segment to the right in the same section, or none exactly when there is none |
| SegmentManager.Manager.constructor | filesystem/f2fs/segment.c:1781-1831 | Building the segment manager from the logs of a checkpoint and the entries read from SIT journal and SIT blocks yields the mounted state |
| SegmentManager.Manager.AllocateDataBlock | filesystem/f2fs/segment.c:857-901 | The new state is the specified one; the block is the one the log announced and a hole of both maps; the invariant holds again, and the next block announced is the one the next allocation returns; what it changes is marked dirty, so that the SIT area backs the rest. A log at its end needs a victim, a free section or room in its section, in the state the policy sees |
| SegmentManager.Manager.AllocateSegment | filesystem/f2fs/segment.c:753-770 | It goes on whenever SSR has a victim, a section is free or the section of the log has a free segment further right; the log moves to a free segment, or to a legal victim exactly when SSR is asked for, the next segment is not free and an allowed list has an eligible victim; forced moves and the warm node log never take one; which victim and which free segment is that of the two searches |
| SegmentManager.Manager.AsksForVictim | filesystem/f2fs/segment.c:753-770 | SSR is asked for a victim exactly when the move is not forced, the log is not the warm node log, it is in SSR mode or its next segment is not free, and prefree plus free sections are fewer than the overprovisioned ones |
| SegmentManager.Manager.NewCurseg | filesystem/f2fs/segment.c:647-665 | The log is opened on a segment that was free, also with no free section when the section of the log has room to the right: the next free segment of its section unless a new section is asked for, else the first of the section that get_new_segment picks, searching to the right for warm and cold data and under noheap and otherwise to the left, and looking at the zones of all logs |
| SegmentManager.Manager.ChangeCurseg | filesystem/f2fs/segment.c:703-730 | The victim leaves the dirty lists and becomes the current segment, positioned at its first hole |
| SegmentManager.Manager.GetSsrSegment | filesystem/f2fs/segment.c:732-747 | A victim comes from a list this log may use and has a hole; one is found exactly when such a list has an eligible one; it is the best of the first list that has one, going down from the own list of the log |
| SegmentManager.Manager.GetVictim | filesystem/f2fs/gc.c:340-425 | The scan finds an eligible victim exactly when one exists; it takes the first of the cheapest among the eligible segments visited, which are those from the last cut on and then from the beginning, up to the search limit; where the limit cuts it off the next scan goes on, else at 0; within the limit the victim is the cheapest of all |
| VictimScan.CheapestOfAll | filesystem/f2fs/gc.c:340-425 | With the counter of the list right and within the limit, the first cheapest of those visited is the cheapest of all eligible segments, wherever the scan starts |
| VictimScan.ScanHolds | filesystem/f2fs/gc.c:362-388 | The segments visited are exactly the eligible ones, in ascending order |
| SegmentManager.Manager.VictimCost | filesystem/f2fs/gc.c:383-397 | A candidate is passed over exactly when its section is the one being cleaned, is that of a log, or is marked as a victim; it is accepted when its cost ckpt_valid_blocks is also below blocks_per_seg |
| SegmentManager.Manager.UpdateSitEntry | filesystem/f2fs/segment.c:398-435 | Counts, maps, section totals and dirty bits become those of the specification, which keeps them consistent |
| SegmentManager.Manager.LocateDirtySegment | filesystem/f2fs/segment.c:245-268 | Marks and counters become those of the specification |
| SegmentManager.Manager.InvalidateBlocks | filesystem/f2fs/segment.c:445-463 | NEW_ADDR changes nothing; a real address invalidates exactly its block; the invariant is kept |
| SegmentManager.Manager.SetTestAndFree | filesystem/f2fs/segment.h:337-357 | Segment and section bits and both counters change as specified |
| SegmentManager.Manager.SetTestAndInuse | filesystem/f2fs/segment.h:359-371 | Segment and section bits and both counters change as specified |
| SegmentManager.Manager.NextFreeBlkoff | filesystem/f2fs/segment.c:667-683 | The word-wise search over the two maps or-ed together returns the first position from the start on that neither map has set |
| SegmentManager.Manager.FlushSitEntries | filesystem/f2fs/segment.c:1388-1457 | Every dirty entry, and no other, becomes the checkpointed one; afterwards SIT journal over SIT blocks say of every segment what memory says, and no SIT block copy selected by the previous checkpoint is written |
| SegmentManager.Manager.FlushSitsInJournal | filesystem/f2fs/segment.c:1361-1382 | A full journal, and only a full one, is emptied with its segments marked dirty; clean entries are still backed, and the flush to come has the same result |
| SegmentManager.Manager.SetPrefreeAsFreeSegments | filesystem/f2fs/segment.c:323-338 | Exactly the prefree segments become free |
| SegmentManager.Manager.ClearPrefreeSegments | filesystem/f2fs/segment.c:340-380 | The run-by-run loop clears all prefree marks and counts them right |
| SegmentManager.Manager.WriteCheckpoint | filesystem/f2fs/checkpoint.c:663-828 | The segment tables after a checkpoint are the specified ones and satisfy the invariant; the SIT area holds the very image whose mount restores them, and the copies of the previous checkpoint were not touched |
| SitArea.Area.StoreRaw | filesystem/f2fs/segment.c:1404-1447 | The table on disk changes at exactly that segment: in the journal alone while that holds the segment or has room and has not been flushed, else in the new copy of its SIT block |
| SitArea.Area.HoldPage | filesystem/f2fs/segment.c:1429-1442 | Since entries come in ascending order a SIT block is switched at most once in a flush, and never from a copy still waiting to be written |
| SitArea.Area.ReadSit | filesystem/f2fs/segment.c:1628-1673 | Reading at mount gives for every segment the journal entry, or else the entry of the current SIT block |
| SitArea.SitIsPaired | filesystem/f2fs/segment.h:607-634 | next_sit_addr leads from either copy of a SIT block to the other one, and the layout is that of paired blocks |
| SitArea.AllocateDirties | filesystem/f2fs/segment.c:857-901 | Allocation leaves clean only entries that were clean and store the same |
| SitArea.WrittenBacked | filesystem/f2fs/segment.c:1404-1447 | A stored entry may be marked clean: all clean entries are on disk as in memory |
| RevBits.FindRevNextZeroBit | filesystem/f2fs/segment.c:122-172 | For any size the result is the next bit that is clear once the mask of the last word is laid over the bitmap, or the size |
| RevBits.LinearIff | filesystem/f2fs/segment.c:122-172 | That is a linear search for the next clear bit in the numbering of f2fs_set_bit, on all bitmaps of a size, exactly when the size is a number of whole bytes |
| RevBits.SplitByteIsMissed | filesystem/f2fs/segment.c:164-172 | On another size the first bit of the last byte is never found clear |
| RevBits.SearchOfUnion | filesystem/f2fs/segment.c:667-683 | On two maps packed by f2fs_set_bit and or-ed word by word, the search finds the next position clear in both |
| RevBits.FfsSet | filesystem/f2fs/segment.c:32-61 | __reverse_ffs of a non-zero word is the number of a set bit |
| RevBits.FfsFirst | filesystem/f2fs/segment.c:32-61 | and of the first one |
| RevBits.MaskBehind | filesystem/f2fs/segment.c:139-146 | The mask leaves the bits at and behind the offset as they are |
| RevBits.MaskBefore | filesystem/f2fs/segment.c:139-146 | and covers all bits before it |
| RevBits.SetBitSets | filesystem/f2fs/f2fs.h:901-911 | f2fs_set_bit sets the bit this numbering means |
| RevBits.SetBitKeeps | filesystem/f2fs/f2fs.h:901-911 | and no other |
| RollForward.RecoveryFindsTheRunIff | filesystem/f2fs/recovery.c:129-203 | After any run of writes, invalidations, checkpoints and crashes, following next_blkaddr from the checkpointed warm node position gives exactly the warm node blocks written since the checkpoint and not lost, in write order, and stops, exactly when the block the log would write next does not carry the current version |
| RollForward.RecoveryFindsTheRun | filesystem/f2fs/recovery.c:129-203 | So the walk is right after every run without a crash since the last checkpoint |
| RollForward.LostBlockIsWalked | filesystem/f2fs/recovery.c:440-467 | After a crash with nothing fsynced no checkpoint is written; one block written and fsynced over two lost ones, the walk goes on from it into the second lost block |
| RollForward.SmallMachineLosesABlock | filesystem/f2fs/recovery.c:440-467 | A concrete file system on which that happens |
| RollForward.MountedIsGood | filesystem/f2fs/segment.c:1781-1831 | Any checkpoint image whose warm node log is not in SSR mode is a start for these runs, whatever the disk holds |
| RollForward.ChainIsCompleteIff | filesystem/f2fs/segment.c:753-761 | In every reachable state each footer of the chain names the block that the next warm node allocation returned, and the chain is all that the walk finds exactly when the next block does not carry the version |
| RollForward.WriteKeeps | filesystem/f2fs/segment.c:857-901 | Writing a block of any log keeps the chain: no write lands on it, and a warm node block extends it |
| RollForward.CommitKeeps | filesystem/f2fs/checkpoint.c:663-828 | A checkpoint starts a new, empty chain at the place where its mount puts the log |
| RollForward.ChainEnds | filesystem/f2fs/recovery.c:129-203 | When only blocks written since the checkpoint carry the current version, nothing at the next warm node position does, so the walk stops there |
| RollForward.FindFsyncDnodes | filesystem/f2fs/recovery.c:129-203 | The loop visits the chain in order; it collects exactly the inodes for which some block of it carries the fsync mark, each with the last such block |
| RecoveryWalk.EndsIff | filesystem/f2fs/recovery.c:129-203 | On any disk the walk ends exactly when it never comes back to a block it has seen |
| RecoveryWalk.WalkIsChain | filesystem/f2fs/recovery.c:129-203 | A walk that ends runs along a chain, which is what the loop follows |
| RecoveryWalk.CleanRunEnds | filesystem/f2fs/recovery.c:129-203 | After every run whose next warm node block does not carry the version the walk ends |
| RecoveryWalk.LostSegmentsLoop | filesystem/f2fs/recovery.c:440-467 | From a mounted file system whose warm node log has one block left: two segments are filled one after the other and lost, and after the crash filled in the other order; then the walk goes round through both for ever |
| RecoveryWalk.SmallMachineLoops | filesystem/f2fs/recovery.c:440-467 | A concrete file system that reaches such a state |
| NatManager.NodeManager.GetNodeInfo | filesystem/f2fs/node.c:267-314 | The answer is the value of one map whichever of cache, journal and NAT block holds it; the map does not change, and the entry is cached |
| NatManager.NodeManager.SetNodeAddr | filesystem/f2fs/node.c:193-243 | Exactly one entry of the map changes: its address is the one given; its owner is the one the caller gives for a new node and otherwise the one known; its version is the old one, plus 1 in eight bits exactly when a node whose address is not NEW_ADDR is removed |
| NatManager.NodeManager.TryToFreeNats | filesystem/f2fs/node.c:245-262 | Eviction removes clean entries only, oldest first, as many as asked for or all, and changes no answer |
| NatManager.NodeManager.FlushNatsInJournal | filesystem/f2fs/node.c:1660-1702 | A full journal is emptied, and only a full one; no answer changes |
| NatManager.NodeManager.GetNextNatPage | filesystem/f2fs/node.c:52-83 | The copy to be written is made and selected; the durable tables and the checkpointed copies are unchanged |
| NatManager.NodeManager.StoreEntry | filesystem/f2fs/node.c:1736-1776 | The durable tables change at exactly that entry: in the journal alone while that holds the nid or has room and has not been flushed, else in the NAT block |
| NatManager.NodeManager.FlushNatEntries | filesystem/f2fs/node.c:1707-1796 | No answer changes; afterwards journal over NAT blocks hold every entry that is not NEW_ADDR, hence the whole map when there is none; and no NAT block copy selected by the previous checkpoint is written |
| NatManager.NodeManager.Run | filesystem/f2fs/node.c:193-314 | Any sequence of lookups, updates, evictions and checkpoints answers every lookup as one plain map does, in which an update sets address, owner and version as above |
| NatManager.LastAddressAnswers | filesystem/f2fs/node.c:193-314 | So a lookup at the end of a run answers with the address set last for its nid, and with the owner given when it was a new node last |
| NatManager.AfterOthers | filesystem/f2fs/node.c:193-314 | Updates of other nids leave an answer alone, and only a new node changes the owner |
| NatManager.FlushedIsDurable | filesystem/f2fs/node.c:1707-1796 | With only NEW_ADDR entries dirty, the durable tables equal the map everywhere else |
| TableLayout.ShadowPut | filesystem/f2fs/node.c:52-83 | Writing into the new copy of a NAT block never touches a checkpointed copy |
| TableLayout.CopiesDisjoint | filesystem/f2fs/node.h:111-129 | No two copies of any two NAT blocks share an address |
| TableLayout.CopyRow | filesystem/f2fs/node.h:111-129 | The copies of a NAT block lie at the same offset in the two segments of its pair, the second one for a set version bit |
| TableLayout.NextIsTheOtherCopy | filesystem/f2fs/node.h:131-143 | next_nat_addr leads from either copy of a block to the other one |
| TableLayout.JournalPutStored | filesystem/f2fs/node.c:1740-1776 | An entry put in the journal is what the tables then show, and nothing else changes |
| TableLayout.PagePutStored | filesystem/f2fs/node.c:1745-1773 | An entry put in its NAT block is what the tables then show, and nothing else changes |
| CheckpointPack.CrashOutcome | filesystem/f2fs/checkpoint.c:364-463 | After a crash that leaves any subset of pack v+1 on disk the mount yields v or v+1, and v+1 exactly when a head and a tail of that version can be read |
| CheckpointPack.AllOrNothingIff | filesystem/f2fs/checkpoint.c:364-463 | Writing a pack is all-or-nothing, for every subset reached, exactly when no leftover head or tail of version v+1 is on the disk |
| CheckpointPack.NextIsAllOrNothingIff | filesystem/f2fs/checkpoint.c:663-828 | After any run of checkpoints, each completed or interrupted with any blocks written, from a new file system on, the next one is all-or-nothing exactly when no interrupted attempt at that version, of the same length, was the last to reach the place of its head or of its tail |
| CheckpointPack.FirstAttemptIsSafe | filesystem/f2fs/checkpoint.c:663-828 | In every such run the first attempt at a version is all-or-nothing |
| CheckpointPack.NextIsMounted | filesystem/f2fs/checkpoint.c:416-463 | In every such run one more attempt leads to a mount of the same version or the next, and to the next if its head and tail were written |
| CheckpointPack.TrySucceeds | filesystem/f2fs/checkpoint.c:663-828 | Once the next version is mounted, both segments hold only versions up to it, and no attempt is left to explain |
| CheckpointPack.TryFails | filesystem/f2fs/checkpoint.c:663-828 | An interrupted attempt that is not mounted leaves in the other segment what the attempts so far say, and pack v as it was |
| CheckpointPack.TwoCrashesMayMix | filesystem/f2fs/checkpoint.c:364-463 | Two interrupted attempts at the same version can leave a head and a tail of different attempts, and the mount accepts them |
| CheckpointPack.ParityKeepsOldPack | filesystem/f2fs/f2fs.h:723-739 | Version parity keeps every block of pack v untouched while v+1 is written |
| CheckpointPack.PackFits | filesystem/f2fs/checkpoint.c:830-843 | max_orphans makes every pack fit its segment |
| CheckpointPack.NextIsAfter | filesystem/f2fs/f2fs.h:48-50 | ver_after holds between a version and its successor in 64-bit arithmetic, including the wrap, and not the other way |
| CheckpointPack.Checkpointer.WriteCheckpoint | filesystem/f2fs/checkpoint.c:663-828 | In the segment of the parity of the version, head, orphan blocks, data summaries, node summaries at umount and tail are written one behind the other, and nothing else; the total that head and tail carry is their number |
| CheckpointPack.Checkpointer.GetValidCheckpoint | filesystem/f2fs/checkpoint.c:416-463 | The version mounted is that of a valid pack, and no valid pack is later; there is none exactly when neither is valid |
| CheckpointAtomicity.AtomicIff | filesystem/f2fs/checkpoint.c:663-828 | After a crash at any point of a checkpoint the mount gives head, SIT and NAT of version v or all three of version v + 1, the latter exactly when head and tail of the new pack were written: for every such crash, exactly when nothing is left over from an earlier attempt at that version |
| CheckpointAtomicity.CheckpointIsAtomic | filesystem/f2fs/checkpoint.c:663-828 | One such crash, with any pages of the SIT and NAT areas written, or all of them and any blocks of the pack |
| CheckpointAtomicity.SegmentsAreAtomic | filesystem/f2fs/checkpoint.c:663-828 | So the segment manager is mounted with the logs and the validity maps of the last checkpoint, or with those of the new one |
| CheckpointAtomicity.OldTableKept | filesystem/f2fs/checkpoint.c:674-676 | With any of the waiting pages written, the version bits and the journal of the last checkpoint read the same table as before |
| CheckpointAtomicity.NewTableComplete | filesystem/f2fs/checkpoint.c:674-676 | With all of them written, the new version bits and the new journal read the new table |
| CheckpointAtomicity.LostSummaries | filesystem/f2fs/checkpoint.c:743-782 | The pack has to be one write: with head and tail on disk and the summaries lost the new version is mounted with the journals that its place held before |
| CheckpointAtomicity.Prepare | filesystem/f2fs/checkpoint.c:810-823 | After flush_nat_entries and flush_sit_entries the tables and the pack about to be written meet the conditions of these theorems: they continue the tables of the last checkpoint, and record the segment manager as the checkpoint leaves it and every settled node address |
| Orphans.OrphanList.Acquire | filesystem/f2fs/checkpoint.c:195-207 | An orphan is accounted for exactly while there is room |
| Orphans.OrphanList.Release | filesystem/f2fs/checkpoint.c:209-215 | An acquisition that became no entry is given back |
| Orphans.OrphanList.Add | filesystem/f2fs/checkpoint.c:217-246 | The walk inserts the inode in its sorted place, once |
| Orphans.InsertedOk | filesystem/f2fs/checkpoint.c:217-246 | The list stays sorted without duplicates, and gains exactly this inode |
| Orphans.OrphanList.Remove | filesystem/f2fs/checkpoint.c:248-265 | The list loses exactly this inode, and the counter follows |
| Orphans.OrphanList.Write | filesystem/f2fs/checkpoint.c:305-362 | The blocks written are the list cut into blocks; blocks reserved beyond the list keep what they held |
| Orphans.BlocksAreFull | filesystem/f2fs/checkpoint.c:305-362 | Every block of the list but the last is full, and none is empty |
| Orphans.OrphanList.WriteAndRecover | filesystem/f2fs/checkpoint.c:277-362 | Written when no acquisition is pending and read back at mount, the pack gives exactly the list |
| OrphanRuns.CounterIsListPlusPending | filesystem/f2fs/checkpoint.c:195-265 | In every run of operations, each in its f2fs_lock_op section, and of checkpoints and crashes, n_orphans is the length of the list plus the acquisitions not yet used or given back, and the list is exactly the inodes without links |
| OrphanRuns.EveryCheckpointReadsBack | filesystem/f2fs/checkpoint.c:619-671 | A checkpoint takes the lock exclusively, so at every checkpoint of every run nothing is pending, the blocks reserved are the blocks filled, reading them back gives the list whatever they held before, and a crash followed by a mount evicts exactly the inodes that had no links |
| OrphanRuns.UnlinkKeeps | filesystem/f2fs/dir.c:566-569 | Removing a name either makes its inode an orphan, exactly when that was the last link, or gives the acquisition back |
| OrphanRuns.EvictKeeps | filesystem/f2fs/node.c:510-512 | Evicting an inode without links takes exactly it off the list and off the counter |
| NodePath.PathLeadsBack | filesystem/f2fs/node.c:320-392 | A path exists exactly below the limit, and start_bidx_of_node of its last node number plus its last offset is the block again; the last node is a direct node by IS_DNODE and the inner ones are not |
| NodePath.NumbersAreDistinct | filesystem/f2fs/node.h:214-251 | Different nodes of a file have different numbers |
| NodePath.PathNumbers | filesystem/f2fs/node.c:320-392 | Every number on the path is the pre-order number of the node its offsets lead to |
| NodePath.MaxFileSizeInRange | filesystem/f2fs/super.c:678-696 | Every page of a file below max_file_size has a path, with or without inline attributes |
| NodePath.MaxFileSizeIsLeast | filesystem/f2fs/super.c:678-696 | With inline attributes a page has a path exactly below max_file_size |
| NodePath.FillNodePath | filesystem/f2fs/node.c:320-392 | The two arrays and the level are those of the path; the BUG is reached exactly out of range |
| FileMap.PathWalks | filesystem/f2fs/node.c:320-392 | The path of a block leads to a root and slots whose index below that root is the block |
| FileMap.LookupIsFileGet | filesystem/f2fs/node.c:400-491 | Walking the offsets down the tree finds what the file map stores at the block |
| FileMap.CutRootsCutFile | filesystem/f2fs/node.c:685-779 | Cutting one root and removing all later ones cuts the file at that block |
| FileMap.HoleThenCut | filesystem/f2fs/file.c:254-305 | Emptying the rest of one direct node and cutting behind it is cutting the file at the block |
| NodeTree.FollowIsGet | filesystem/f2fs/node.c:400-491 | Walking the slots of a subtree finds what is stored at their index |
| NodeTree.NoLeafGap | filesystem/f2fs/node.c:400-491 | Where the walk meets a missing node, nothing is stored in the range of that direct node |
| NodeTree.InnerCut | filesystem/f2fs/node.c:552-622 | Keeping the kids before a slot, cutting the kid there and dropping later ones cuts the node |
| NodeTree.CutOverGap | filesystem/f2fs/node.c:685-779 | Cutting further back over a stretch that stores nothing is the same cut |
| NodeTree.OwnedKidsUpdate | filesystem/f2fs/node.c:552-622 | Replacing one kid changes the blocks owned by exactly the difference |
| NodeTree.OwnedAddrsAre | filesystem/f2fs/node.c:529-550 | A direct node owns every address as often as it holds it, and NULL_ADDR not at all |
| NodeTree.OwnedIsWhole | filesystem/f2fs/node.c:552-622 | A subtree owns its own block and everything its kids own |
| Truncate.KidsFromCuts | filesystem/f2fs/node.c:552-622 | What truncate_nodes leaves is the node cut at the slot |
| Truncate.PartialTruncated | filesystem/f2fs/node.c:624-680 | A partial kid cut first and the kids after it freed then is the double indirect node cut at the index |
| Truncate.DindirectNoKid | filesystem/f2fs/node.c:624-680 | The same when the indirect node on the path is missing and the partial step does nothing |
| Truncate.OnlyLastLeafEnds | filesystem/f2fs/file.c:254-305 | The block behind a direct node is out of range exactly when it is the last direct node of the tree |
| Truncate.FirstBlockIsFirst | filesystem/f2fs/file.c:254-275 | The first block to free is the first one lying wholly at or past the byte position |
| Truncate.Inode.TruncateDataBlocksRange | filesystem/f2fs/file.c:195-224 | Exactly the slots of the range become NULL, and the counter drops by the non-NULL ones |
| Truncate.Inode.TruncateDnode | filesystem/f2fs/node.c:529-550 | A direct node goes with all its data, each block given back once |
| Truncate.Inode.TruncateNodes | filesystem/f2fs/node.c:552-622 | Slots from the offset on are freed, the node itself when the offset is 0, and the return value tells a completely freed node |
| Truncate.Inode.TruncatePartialIndirect | filesystem/f2fs/node.c:624-680 | The direct nodes from the offset on are freed and the walk moves to the next root; a missing node changes nothing |
| Truncate.Inode.TruncatePartialDindirect | filesystem/f2fs/node.c:624-680 | The same one level down |
| Truncate.Inode.TruncateInodeBlocks | filesystem/f2fs/node.c:685-779 | From the start of a direct node on every block is unmapped and every later node gone, everything before is unchanged, and the counter drops by exactly the blocks given back, for any tree |
| Truncate.Inode.TruncateBlocks | filesystem/f2fs/file.c:254-305 | The same from any byte position; the BUG is reached exactly when the position is out of range or lies inside the last direct node of the tree past its first slot |
| Truncate.TruncatingTheLastNodeFails | filesystem/f2fs/file.c:254-305 | A file on which truncating to its last block reaches the BUG |
| Truncate.LastNodeIsInside | filesystem/f2fs/file.c:254-305 | Its position is in range, and meets that condition |
| Directory.Dir.FindEntry | filesystem/f2fs/dir.c:182-212 | An entry is found exactly when the name is in the directory, and it is that name with its slot; the BUG of get_node_path is reached exactly when the name is missing and some level has a bucket for it that ends past the node tree; any other miss leaves a hint for the hash: the one there was, or a level whose bucket has room, or the last level |
| Directory.Dir.InodeByName | filesystem/f2fs/dir.c:231-245 | It is the map lookup, 0 for a missing name |
| Directory.Dir.AddLink | filesystem/f2fs/dir.c:433-518 | The directory as a map gains exactly this name, in the first block with room of the first level from the hint on that has one, and the depth grows just as far as that level needs; ENOSPC is never returned; the BUG of get_node_path leaves map and depth unchanged and is reached exactly when no level from the hint on has a block with room in the node tree before the first bucket that ends past it; so never while the bucket at the current depth lies in the node tree; the hints chash and clevel never lead beyond the depth |
| Directory.SmallDirectoryFails | filesystem/f2fs/dir.c:182-212 | A directory of one entry on which a lookup that misses and the addition of another name both reach the BUG |
| Directory.Dir.DeleteEntry | filesystem/f2fs/dir.c:524-580 | The directory as a map loses exactly this name; its block becomes a hole exactly when no name is left in it, and no other block changes |
| Directory.Dir.FindInLevel | filesystem/f2fs/dir.c:130-174 | Not found means the name was not added at this level; the hint changes only after a miss, to this level, when its bucket has room and the old hint was for another hash; a miss reaches past the node tree exactly when the bucket does |
| Directory.Dir.AddInLevel | filesystem/f2fs/dir.c:470-484 | The entry is added exactly when some block of the bucket of its hash lies in the node tree and has a gap of enough slots, or is missing, and then in the first such block; otherwise the BUG is reached exactly when the bucket ends past the node tree, and nothing changes but that blocks without entries may come |
| Directory.TreeFitsWord | filesystem/f2fs/node.c:320-392 | A node tree over blocks of at most 1024 addresses ends before block indices outgrow 32 bits |
| Directory.EntryBelowLimit | filesystem/f2fs/dir.c:68-77 | The buckets of all levels before the one of an entry end below the limit of the node tree |
| DirBlock.FindInBlock | filesystem/f2fs/dir.c:91-128 | Walking from entry to entry finds a match exactly when the block has one; on a miss the gap reported is the longest behind an entry, and exists |
| DirBlock.RoomForFilename | filesystem/f2fs/dir.c:405-427 | The first gap that is long enough, or the block size exactly when there is none |
| DirBlock.SlotsBound | filesystem/f2fs/dir.c:104 | A name takes the least number of slots of eight characters that hold it |
| DirBlock.AddedOk | filesystem/f2fs/dir.c:497-504 | After adding, the set bits are again exactly the slots of the entries, without overlap |
| DirBlock.AddedKeepsName | filesystem/f2fs/dir.c:497-504 | Writing the new name leaves the names of all other entries alone |
| DirBlock.ClearedOk | filesystem/f2fs/dir.c:524-547 | After deleting, the set bits are exactly the slots of the remaining entries |
| DirEntries.MatchIsEntry | filesystem/f2fs/dir.c:130-174 | A match in a visited block is the entry of that name, for any hash collisions |
| DirLayout.BucketsDisjoint | filesystem/f2fs/dir.c:68-77 | Buckets of different levels or indices share no block, for levels up to 31 |
| DirLayout.LevelsInOrder | filesystem/f2fs/dir.c:68-77 | All buckets of a level end before the blocks of any later level, up to level 31 |
| DirLayout.VisitsBucket | filesystem/f2fs/dir.c:130-155 | A lookup, which keeps the range in unsigned ints, visits the blocks that adding uses exactly for levels below 31 |
| DirLayout.DeepLevelsCoincide | filesystem/f2fs/dir.c:68-77 | From level 31 on the 32-bit product is 0 and all levels lie on the same blocks |
| XattrStore.Xattrs.SetXattr | filesystem/f2fs/xattr.c:476-582 | Update of a map: the attribute gets the value or goes, all others stay; out of range, no space and no node id are reported exactly when they occur and change nothing |
| XattrStore.Xattrs.GetXattr | filesystem/f2fs/xattr.c:399-437 | Lookup in that map, with ENODATA, ERANGE and the size query |
| XattrStore.Xattrs.WriteAll | filesystem/f2fs/xattr.c:327-397 | What is written to inline area and node block reads back as the same list; the node block is kept exactly when the list does not fit inline |
| XattrStore.Xattrs.ReadAll | filesystem/f2fs/xattr.c:269-325 | The buffer holds the list, with a header in any case |
| XattrBuffer.FindXattr | filesystem/f2fs/xattr.c:253-267 | The first entry with the key, or the terminator |
| XattrBuffer.RemoveEntry | filesystem/f2fs/xattr.c:532-544 | memmove and memset leave the list without that entry, followed by zeros up to the terminator |
| XattrBuffer.AppendEntry | filesystem/f2fs/xattr.c:548-563 | The list gains the entry at its end; used size stays within MIN_OFFSET |
| XattrBuffer.SetInBuffer | filesystem/f2fs/xattr.c:499-563 | No space exactly when the new list would pass MIN_OFFSET |
| XattrBuffer.MovedUpHolds | filesystem/f2fs/xattr.c:541-543 | Moving the tail up over an entry removes exactly that entry |
| XattrBuffer.WrittenHolds | filesystem/f2fs/xattr.c:555-561 | Writing the bytes of an entry behind the list adds exactly that entry |
| XattrBuffer.UpdatedAttrs | filesystem/f2fs/xattr.c:476-582 | Removing the old entry and appending the new one is the update of the map |
| XattrFormat.OffsetAligned | filesystem/f2fs/xattr.h:57-63 | Every entry, and the terminator, begins at a multiple of 4 |
| XattrFormat.ReadEntry | filesystem/f2fs/xattr.h:45-66 | The bytes of an entry say its size, and it never looks like the terminator |
| XattrFormat.ReadMatch | filesystem/f2fs/xattr.c:253-267 | The comparison of the loop holds exactly for the entry with that index and name |
| ExtentCache.ExtentInode.Run | filesystem/f2fs/data.c:215-390 | After any run of writes, truncations, reservations and direct writes every block has the address that the operations on it alone give, and the extent agrees with it |
| ExtentCache.ExtentInode.UpdateExtentCache | filesystem/f2fs/data.c:312-390 | Exactly one address changes; the extent follows by merge, split or drop and keeps agreeing; with FI_NO_EXTENT it is left alone |
| ExtentCache.ExtentInode.UpdateExtent | filesystem/f2fs/data.c:329-390 | Front merge, back merge, split and drop, with the extent given up exactly when what remains is shorter than 16 |
| ExtentCache.ExtentInode.AllocateDataBlock | filesystem/f2fs/data.c:569-599 | Direct I/O switches the cache off and on again without making it wrong |
| ExtentCache.ExtentInode.CheckExtentCache | filesystem/f2fs/data.c:269-310 | A hit gives the address of the slow lookup for the block and for all following ones counted; it hits exactly when the extent covers the block |
| ExtentCache.ExtentInode.ReserveNewBlock | filesystem/f2fs/data.c:232-248 | Reserving a block without an address leaves the extent right |
| ExtentCache.LargerSideIsLongest | filesystem/f2fs/data.c:364-374 | A split keeps a longest stretch without the changed block |
| ExtentCache.OrderedWritesMerge | filesystem/f2fs/data.c:329-390 | A stretch of any length written forwards or backwards into consecutive addresses becomes one extent |
| ExtentCache.LastOperationCounts | filesystem/f2fs/data.c:215-390 | In the reference of Run a block has the address written last, none once punched, and keeps one it has when it is reserved or written directly |
| ExtentCache.AgreementKept | filesystem/f2fs/data.c:312-390 | Whatever case applies, the new extent agrees with the new addresses |
| ExtentCache.SlotsAreDistinct | filesystem/f2fs/gc.c:556-574 | Different blocks have different slots in the node tree |
| FreeNidRuns.AlwaysFreeIff | filesystem/f2fs/node.c:1328-1527 | In every interleaving of the lock-protected steps no live id is ever on offer exactly when no insertion of the builder comes while its id is live, off the list, and without a journal address still to be read |
| FreeNidRuns.GivenIdsAreFree | filesystem/f2fs/node.c:1328-1527 | In every such interleaving alloc_nid gives out an id that is not 0, not live and held by nobody |
| FreeNidRuns.CalmIsHarmless | filesystem/f2fs/node.c:1344-1366 | No such insertion occurs unless alloc_nid_done finishes the very id that the builder has checked and not yet inserted |
| FreeNidRuns.StepKeeps | filesystem/f2fs/node.c:1328-1527 | Every lock-protected step but such an insertion keeps the counter, distinctness, and that no id on offer is live unless the builder will still remove it |
| FreeNidRuns.OvertakingBreaksIff | filesystem/f2fs/node.c:1344-1366 | If the id is finished between the check of the NAT cache and the insertion, whatever steps come in between, it comes on offer, and it is free exactly if its address was set to NULL again in between, or the journal entry that removes it is still to be read |
| FreeNidRuns.FlushIsAStep | filesystem/f2fs/node.c:1707-1796 | A flush of the NAT manager that changes no answer is a step of this protocol, whose tables are those of the NAT manager |
| FreeNidRuns.LiveIdGivenTwice | filesystem/f2fs/node.c:1344-1366 | A concrete interleaving after which an id in use is offered again |
| FreeNidRuns.CheckedPage | filesystem/f2fs/node.c:1380-1401 | An id that is NULL in its NAT page and not live in the cache is free, or its journal entry is still to be read |
| FreeNidPool.InsertedOk | filesystem/f2fs/node.c:1328-1366 | Only that id changes status; fcnt counts the NID_NEW entries; ids stay distinct and non-zero |
| FreeNidPool.RemovedOk | filesystem/f2fs/node.c:1368-1378 | The same for removal, which spares allocated ids |
| FreeNidPool.TakenOk | filesystem/f2fs/node.c:1453-1475 | With fcnt not 0 there is a NID_NEW entry, and exactly the first becomes NID_ALLOC |
| FreeNidPool.FinishedOk | filesystem/f2fs/node.c:1494-1504 | Exactly that id leaves the list |
| FreeNidPool.ReturnedOk | filesystem/f2fs/node.c:1509-1527 | The id is on offer again, or dropped when the list is long |
| FreeNids.NmInfo.BuildFreeNids | filesystem/f2fs/node.c:1403-1446 | Undisturbed, it leaves no live id on offer, whatever NAT pages, journal and cache say; it scans the next FREE_NID_PAGES + 1 pages and the journal; when the list limit leaves room, every id that is NULL in a page scanned, or in the journal, is not corrected by the journal and not live in the cache is on the list afterwards; nothing else comes on offer, and handed out ids are left alone |
| FreeNids.NmInfo.ScanNatPage | filesystem/f2fs/node.c:1380-1401 | Every id of the page from the start on that is NULL there and not live in the cache is on the list afterwards, unless the list is long enough; nothing else comes on offer |
| FreeNids.NmInfo.ScanJournal | filesystem/f2fs/node.c:1432-1445 | The journal corrects what the pages said: ids live in it go, ids NULL in it and not live in the cache are on the list afterwards, also over a live page entry, when there is room; no free id is taken off |
| FreeNids.NmInfo.AllocNid | filesystem/f2fs/node.c:1453-1489 | Undisturbed, it refuses exactly when the node count says so, and otherwise gives out an id that is not 0, below max_nid, not live and not handed out; its retry loop ends whenever some id is on offer or can be listed, wherever the scan stands |
| FreeNids.NmInfo.Rounds | filesystem/f2fs/node.c:1458-1488 | The retry loop cut off after n rounds: with n at least two more than the number of NAT blocks it gives out an id exactly when one is on offer or can be listed (below max_nid, not handed out, not live in the cache, NULL in the journal or else in its page); otherwise every round leaves the same situation behind, so that no number of rounds will do |
| FreeNids.FullVolumeNeverAnswers | filesystem/f2fs/node.c:1458-1460 | A volume whose ids are all in use, on which the node count passes the guard of alloc_nid and no number of rounds gives out an id |
| FreeNids.NmInfo.TakeNid | filesystem/f2fs/node.c:1462-1480 | An id is given out exactly when fcnt is not 0 and no builder runs |
| FreeNids.NmInfo.AddFreeNid | filesystem/f2fs/node.c:1328-1366 | The list and the three return values are those the code rules |
| FreeNids.NmInfo.AllocNidDone | filesystem/f2fs/node.c:1494-1504 | Exactly that id leaves the list |
| FreeNids.NmInfo.AllocNidFailed | filesystem/f2fs/node.c:1509-1527 | 0 is ignored; otherwise exactly that id changes status |
| CompactSummaries.WriteCompactedSummaries | filesystem/f2fs/segment.c:1207-1262 | Both journals are in the area, and every entry of a log in SSR mode and the entries before the offset of any other; the number of blocks used is that of blocks_per_seg entries for each SSR log and next_blkoff for each other |
| CompactSummaries.ReadCompactedSummaries | filesystem/f2fs/segment.c:1066-1125 | Reading restores both journals, every entry of a log in SSR mode and the entries before the offset of any other, and leaves the other entries as they were |
| CompactSummaries.ReportIsExact | filesystem/f2fs/segment.c:480-500 | npages_for_summary_flush is the number of blocks used whenever it is 1 or 2, and the area needs at least 3 when it is 3 |
| CompactSummaries.NpagesForSummaryFlush | filesystem/f2fs/segment.c:480-500 | The report is that of blocks_per_seg entries for each SSR log and next_blkoff for each other, and it is the number of blocks used whenever it is 1 or 2 |
| CompactSummaries.PlaceNext | filesystem/f2fs/segment.c:1239-1256 | Writer and reader agree where the next entry lies |
| CompactSummaries.PlacesApart | filesystem/f2fs/segment.c:1239-1256 | Entries never overlap |
| RingCopy.CopyIsCorrect | OSlab/lab/lab3/readbuf_1.2.c:35-43 | In every interleaving the output is a prefix of the input, free and full counts and slots in progress add up to the ring, the two processes never share a slot, there is no deadlock, and every run ends after the same number of steps with equal files, also for multiples of the slot size |
| RingCopy.EveryState | OSlab/lab/lab3/writebuf_1.2.c:35-43 | The invariant holds in every state of every run |
| RingCopy.FillsFreeSlot | OSlab/lab/lab3/readbuf_1.2.c:35-43 | The slot being filled holds no chunk that is still to be drained |
| RingCopy.StartOk | OSlab/lab/lab3/lab3_1.2.c:24 | The initial semaphore values establish the invariant |
| RingCopy.LeftExactly | OSlab/lab/lab3/writebuf_1.2.c:35-43 | Every step brings the end one step nearer |
| ShortestPaths.FindShortestPaths | Algorithms/lab3/SHORTEST-PATHS_plus.c:48-101 | Also on the early return DIST is the least length of any walk, MAX exactly without one, and each recorded route is real, has that length and at most n-2 inner vertices |
| ShortestPaths.ClosestIsLeast | Algorithms/lab3/SHORTEST-PATHS_plus.c:68-70 | The closest unselected vertex has its true distance |
| ShortestPaths.NoneLeft | Algorithms/lab3/SHORTEST-PATHS_plus.c:68-69 | When min_dist finds nothing, the remaining vertices cannot be reached |
| ShortestPaths.GuardIff | Algorithms/lab3/SHORTEST-PATHS_plus.c:74-75 | The overflow guard lets an edge through exactly when its cost is positive and the sum fits in 32 bits |
| ShortestPaths.RelaxEdge | Algorithms/lab3/SHORTEST-PATHS_plus.c:71-87 | Distance and route change exactly when the way over u is shorter |
| ShortestPaths.MinDist | Algorithms/lab3/SHORTEST-PATHS_plus.c:103-115 | The closest unselected vertex, or none exactly when all distances are MAX |
| Regex.MatchersAgreeIff | ACM/leetcode/10_BF.cpp:12-20 | The table and the recursion agree on every string exactly when the pattern has no star that the recursion reads as a character |
| Regex.UsualPatterns | ACM/leetcode/10_DP.cpp:17-35 | Patterns without leading and adjacent stars have no such star |
| Regex.MatchByTable | ACM/leetcode/10_DP.cpp:17-35 | The answer of the filled table is whether the string can be cut into pieces, one for each element of the pattern: a plain character takes one equal to it, a starred one any number of such, and a dot stands for any character |
| Regex.TableMeans | ACM/leetcode/10_DP.cpp:17-35 | That is what the recurrence means for the elements with each star belonging to the character before it |
| Regex.IsMatchMeans | ACM/leetcode/10_BF.cpp:12-20 | And what the recursion means, for the elements with each character before a star starred |
| Regex.Readings | ACM/leetcode/10_BF.cpp:12-20 | Every pattern has such a reading for the recursion, and for the table if it does not begin with a star |
| Regex.LastStarred | ACM/leetcode/10_BF.cpp:12-20 | The suffix recursion satisfies the table recurrence for a starred last element |
| Regex.LastPlain | ACM/leetcode/10_BF.cpp:12-20 | and for a plain last character |
| Queens.NQueens | Algorithms/additional/NQUEENS.c:14-37 | It terminates, and prints the rows of the depth-first list of solutions in order, with their number |
| Queens.AllSolutions | Algorithms/additional/NQUEENS.c:14-37 | That list holds every placement with one queen in each row and no two in a column or on a diagonal, nothing else, in strictly increasing lexicographic order |
| Queens.Place | Algorithms/additional/NQUEENS.c:39-46 | The test passes exactly when no earlier queen attacks the new one |
| Queens.RoundDown | Algorithms/additional/NQUEENS.c:19-35 | Starting a new row loses no pending solution and lowers the termination measure |

## Left out

- SegmentManager.Manager.AllocateDataBlock: covers allocation by `allocate_data_block` only; `recover_data_page` and `rewrite_node_page`, which place logs at arbitrary offsets, are not part of the invariants.
- SegmentManager.Manager.GetVictim: models the SSR mode; the cost-benefit and category policies of background cleaning, and moving blocks in `f2fs_gc`, are left out.
- NatManager.NodeManager.GetNextNatPage: is consulted for every entry instead of once per run of entries; the page pointer kept across entries is not modelled.
- `__find_rev_next_bit` masks away later bytes of the first word, so it is not a plain search; the allocator does not use it.
- FreeNids.NmInfo.AllocNid: runs undisturbed; other threads that keep taking the ids it builds are in `FreeNidRuns`, where each attempt is a step and no progress is claimed.
- Truncate.Inode.TruncateBlocks: nodes are values nested in their parents, so that two parents sharing a node id are not expressible; page locks and the restart after a lost page are left out, as are inline data and zeroing the partial page.
- Directory.Dir.AddLink: leaves out inode initialisation and `make_empty_dir`; a name in the directory twice is excluded by its precondition.
- ShortestPaths.FindShortestPaths: the printed tables are left out; intermediate vertices are kept as a sequence instead of a fixed record of eight integers, with its length bounded.
- RingCopy.CopyIsCorrect: opening files, creating shared memory and semaphores, and short writes are left out.
- Bitmaps and tables that the source keeps in fixed memory are sequence fields that methods reassign, except the attribute buffer, the path arrays, the matcher's table, the board and the distance arrays, which are arrays.
- blocks_per_seg is any positive multiple of 8; the source shifts and masks by its logarithm.
- Discard commands, modification times, section victim maps of cleaning, write-back, page cache, plugging, tracing and statistics: device and kernel plumbing.
- The roll-forward of data (`recover_data`), dentry recovery and directory iteration.
- OrphanRuns.EveryCheckpointReadsBack: an inode whose creation fails half-way is not part of the model, nor are roll-forward changes to link counts after the crash.
- The remaining programs of the repository: drivers, servers, GUI and numeric exercises are I/O or library code; `Compilers` depends on generated code; the other algorithm exercises are easier or incomplete.
