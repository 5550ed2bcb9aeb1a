# F2FS with SWOD: a verified model

A Dafny model of the parts of an F2FS fork where the on-disk and in-memory
structures are hardest to keep right, with proofs of what they promise. The fork
adds SWOD, which holds back discard windows and steers garbage collection towards
them. `dafny verify dfyconfig.toml` checks the whole project.

The modules follow the program.

| file | what it models |
|---|---|
| `Checkpoint.dfy` | the two checkpoint packs as a step machine with a volatile disk cache, failed attempts, power loss at any point and remounts |
| `ShadowMeta.dfy` | the two copies of each NAT and SIT block and the bitmaps that choose between them |
| `Orphans.dfy` | orphan accounting, the blocks of a pack, and runs of operations, checkpoints, crashes and mounts |
| `RollForward.dfy` | the two walks over the chain of fsynced nodes |
| `RecoverIndex.dfy` | taking over the addresses of one logged dnode |
| `ExtentCache.dfy` | the extent tree of an inode, its `largest` and its cached node |
| `DentryBlock.dfy`, `Directory.dfy` | slots, bitmaps and names of a dentry block; the multi-level hash directory |
| `InlineDir.dfy`, `Readdir.dfy` | directories in the inode page and their conversion; resumable listing |
| `Decompress.dfy` | the decompression context shared by the submitter and the bio completions |
| `RangeShift.dfy` | collapse and insert range |
| `Victim.dfy`, `Atgc.dfy` | victim selection, the lookup by age |
| `SwodWindow.dfy`, `Swod.dfy` | the search for a discard window, and what becomes of the windows held |
| `FreeSegmap.dfy`, `SitEntry.dfy` | free maps and their counters; checking a SIT entry |
| `NodeTree.dfy`, `Acl.dfy` | node offsets and block indices; ACL encoding |
| `Arith.dfy`, `Bitmap.dfy`, `Options.dfy`, `Errno.dfy`, `Widths.dfy` | shared arithmetic, bit search, options, error numbers and widths |

Where the source updates something in place the model does too: classes hold the
fields, methods have the source's loops, and each is proved against a
specification that does not mention them. Protocols with concurrency or crashes
are relations between states, and their theorems speak of whole runs. What the
layers below may do (I/O errors, lack of memory, a block that cannot be
allocated) comes in as parameters.

## Where the code does less than one would expect

These are stated as lemmas or contracts with the exact condition.

- A logged dnode that names a block twice is not restored as logged; the last
  mention keeps the block (`RecoverIndex.RestoredIff`). A block whose owner sits
  at an offset past the size of the dnode being recovered is refused as corrupted
  on a healthy volume (`RecoverIndex.OwnerInLargerNodeRefused`).
- A target pass of victim selection never ends when the position left by a
  search for single segments is inside a section and the section there does not
  match (`Victim.EndsIff`, `Victim.TargetPassSticks`).
- The search without targets that follows a search for targets in vain keeps the
  bound which the latter has shrunk to the last victim, although its comment calls
  it a fallback to the stock search: it looks at everything dirty if and only if
  the last victim was at the start or nothing dirty lies past it
  (`Victim.FallbackSeesAllIff`, `Victim.FallbackMisses`).
- Listing a directory in several calls hands out each entry once, in order and
  completely, if and only if its positions stay below 2^32 or nothing lies at or
  after the place that the end position wraps to; a start at 2^32 or above, which
  a seek can set, has a condition of its own (`Readdir.ResumedIff`,
  `Readdir.ListedAgain`). Positions past 2^32 blocks, and positions past the end
  of an inline directory, list entries again (`Readdir.NoRepeatIff`,
  `Readdir.InlineNoRepeatIff`).
- Collapse and insert range ignore a failing write-out of the pages they have
  moved. They still deliver the right content if and only if each copied page
  that was not written out reads the same from what its target holds without it
  (`RangeShift.File.Collapse`, `RangeShift.File.Insert`,
  `RangeShift.CopyNotWritten`).
- A collapse that fails half way leaves copied pages behind in the cache. A page
  handed over, or a hole carried, to such an index cannot be read there; every
  page is read at its new or old place if and only if that does not happen, or
  both hold the same, and roll-back loses nothing
  (`RangeShift.CollapseInPlace`, `RangeShift.StalePageHides`). Roll-back loses
  fresh blocks whose dnode it cannot find again (`RangeShift.NothingLostIff`,
  `RangeShift.RollBackLoses`).
- `f2fs_add_dentry` would take an EAGAIN of a lower layer for a conversion done,
  and put the entry where no lookup of the inline directory finds it
  (`InlineDir.Inode.AddDentry`). No layer of this source is known to answer so.
- Rehashing an inline directory keeps unknown file types only as "unknown"
  (`InlineDir.RehashedType`).
- Parked discard windows start a target pass but can never match, although their
  comments say they are handed to completion, and they are not swept while
  nothing is held (`Swod.Ctrl.TargetsInVain`, `Swod.Ctrl.Sweep`). The search for
  a window compares coverage values that are never computed (`SwodWindow`).
- A SIT entry with bits set past the usable blocks passes with a warning only
  (`SitEntry.CheckBlockCount`).
- The ACL size formula fits an ACL only if it has four unnamed entries, or at
  most four entries and none named; every valid ACL does
  (`Acl.RoundTripIff`, `Acl.ValidFits`). The reader may leave its buffer, and
  does so exactly on the values that `Acl.FromDisk` names.

## Model

| member | source | states |
|---|---|---|
| `Checkpoint.CrashSafe` | checkpoint.c:1526-1611 | In every run, at every moment, mounting what is durable, and mounting what reads return, both give exactly the checkpoint whose footer last became durable: header, body and shadow blocks together, never an older one or a mix |
| `Checkpoint.CommitsInOrder` | checkpoint.c:1587-1611 | Each step of a run leaves the committed checkpoint alone or replaces it by the one in progress, one version later; a commit always does the latter and leaves the machine idle |
| `Checkpoint.SyncSucceeds` | checkpoint.c:1456-1611 | From every idle state of every run, and for every image that may come next, there is a run without failure or power loss that ends with that image committed in the other pack, and the disk then mounts as it |
| `Checkpoint.CanResume` | checkpoint.c:920-1008 | From every state of every run the volume can be unmounted and mounted, and is then idle at the committed checkpoint |
| `Checkpoint.RunInv` | checkpoint.c:1456-1611 | The disk invariant holds in every state of every run |
| `Checkpoint.InvNext` | checkpoint.c:1456-1611 | Every step keeps the invariant: writes, destaging in any order, the flush, the footer, failures, power loss, mounts |
| `Checkpoint.MountsStored` | checkpoint.c:920-1008 | A disk that holds a whole checkpoint in one pack and anything older, or torn, in the other mounts as that checkpoint |
| `Checkpoint.MountIff` | checkpoint.c:879-965 | A disk mounts if and only if one of its packs is valid: a checkpoint block of a fitting size in front and one of the same version as its footer |
| `Checkpoint.MountLater` | checkpoint.c:967-1008 | Of two valid packs the one later by less than half the version space is taken, and the first if they are equal |
| `Checkpoint.Formats` | checkpoint.c:920-1008 | Every well-formed checkpoint can be what a volume starts from, in either pack |
| `Checkpoint.SeenStored` | checkpoint.c:879-918 | Reading through the cache during an attempt still sees the committed checkpoint |
| `Checkpoint.InvBegin` | f2fs.h:2458-2479 | Starting an attempt at the other pack, even with a version number that a failed attempt has used, keeps the invariant |
| `Checkpoint.InvFlush` | data.c:588-606 | Flushing the device cache ahead of the footer, which makes every other block of the pack durable, keeps the invariant |
| `Checkpoint.CommitStores` | checkpoint.c:1398-1433 | After the footer the new pack is stored in full, the packs have changed roles, and the checkpoint in progress is the committed one |
| `Checkpoint.CommitAges` | checkpoint.c:1398-1433 | After the footer the former pack is the older one |
| `Checkpoint.InvMount` | checkpoint.c:967-1008 | A remount after a crash or failure selects the committed checkpoint and resumes from it: the machine is idle at that pack and version, and nothing on disk has changed |
| `ShadowMeta.NatNextIsFlipped` | node.h:201-242 | next_nat_addr of the current address is the current address after set_to_next_nat |
| `ShadowMeta.NatDistinct` | node.h:201-216 | Two NAT blocks, or the two copies of one, never share an address |
| `ShadowMeta.SitNextIsFlipped` | segment.h:768-811 | next_sit_addr of the current address is the current address after set_to_next_sit |
| `ShadowMeta.SitDistinct` | segment.h:768-788 | Two SIT blocks, or the two copies of one, never share an address |
| `ShadowMeta.ChangeBit` | f2fs.h:2797-2855 | Flipping bit `nr` of a bitmap flips what the test of `nr` says and no other bit |
| `ShadowMeta.TestBitIs` | f2fs.h:2797-2804 | A clear byte tests false, and a byte with its top bit alone tests true for its first bit alone |
| `ShadowMeta.BlocksDistinct` | f2fs.h:2458-2479 | Packs, NAT and SIT copies lie at distinct blocks, so writing one never overwrites another |
| `Orphans.OrphanList.Acquire` | checkpoint.c:610-630 | A reservation is granted exactly below max_orphans; ino_num stays listed plus reserved |
| `Orphans.OrphanList.Release` | checkpoint.c:632-640 | A reservation is given back |
| `Orphans.OrphanList.Add` | checkpoint.c:480-526 | An inode is appended once, at the cost of a reservation; an inode already listed leaves the reservation unused |
| `Orphans.OrphanList.Remove` | checkpoint.c:528-544 | Exactly this inode leaves the list, and ino_num follows if it was there |
| `Orphans.OrphanList.DropNlink` | dir.c:901-922 | The reservation made for an unlink is used when the last link goes and given back otherwise; it is left over only for an inode that is an orphan already |
| `Orphans.WritePack` | checkpoint.c:1492-1587 | The pack is whole: header in front and as the footer where validation reads it, payload, orphan blocks and summaries where the header says, NAT bits behind it intact, within one segment, and no other block changed |
| `Orphans.HeaderFits` | checkpoint.c:1330-1340 | The pack is as long as its parts, passes the size check, and NAT bits are written exactly at an unmount with NAT bits set or enabled where they fit behind it |
| `Orphans.BlocksBound` | checkpoint.c:1740-1742 | So many orphans are within max_orphans if and only if their blocks fit into a segment beside header, footer, summaries and payload |
| `Orphans.WriteOrphans` | checkpoint.c:775-830 | The orphan blocks hold the list in order, numbered from 1, and no other block changes |
| `Orphans.RecoverOrphans` | checkpoint.c:700-773 | Deletes in order the entries of the blocks that can be read, up to the first inode that fails, and succeeds exactly if every block is read and no inode fails |
| `Orphans.PackRecovers` | checkpoint.c:733-759 | Recovery of a pack whose number counts listed orphans alone deletes exactly its list, in order, unless an inode fails |
| `Orphans.OrphansSurvive` | checkpoint.c:733-759 | In every state of every run of operations, checkpoints, failed attempts, crashes and mounts, a mount would delete exactly the list of the last checkpoint, and that is exactly the inodes that had no link left then and were not lost |
| `Orphans.NoneReserved` | checkpoint.c:789-793 | No checkpoint of any run is taken with a reservation outstanding, so ino_num is the length of the list written |
| `Orphans.MountCleans` | checkpoint.c:655-698 | After a mount, exactly the inodes with links at the last checkpoint, and those lost, are left, with the links they had |
| `Orphans.Removes` | dir.c:901-922 | From every quiet state of every run below the limit, an inode can lose its last link, be listed by a checkpoint and be gone after a crash and a mount, with every other inode that has links still there |
| `Orphans.CanCheckpoint` | checkpoint.c:1456-1611 | With no operation under way a checkpoint of any shape can be taken |
| `Orphans.Refused` | namei.c:573-591 | At the limit an unlink gives up, and a temporary file or failed creation leaves an inode that has failed |
| `Orphans.RunInv` | checkpoint.c:610-653 | In every state of every run ino_num is listed plus reserved, within the limit, and listed or lost are exactly the inodes without links |
| `Orphans.InvNext` | namei.c:573-591 | Every step of unlink, rename, temporary file, failed creation, relinking and eviction keeps that, and so do checkpoints, failed attempts and mounts |
| `Orphans.InvCheckpoint` | checkpoint.c:1221-1221 | With the operations locked out nothing is reserved, and the pack written stores the list |
| `Orphans.InvMount` | checkpoint.c:655-698 | A mount deletes what the pack lists and starts with an empty list |
| `RollForward.RecoverFsyncData` | recovery.c:799-906 | Succeeds if and only if the log is one finite chain and nothing fails in the passes made; then the actions are the replay of that chain, which gives each inode its nodes up to its last fsync and nothing later |
| `RollForward.FindFsyncDnodes` | recovery.c:345-433 | Pass one succeeds if and only if the chain is healthy, and its list has, for each inode to recover and no other, its last fsynced dnode and its last creating inode |
| `RollForward.RecoverData` | recovery.c:728-797 | Pass two ends on the same chain and succeeds exactly if all pages are read and all replays complete, with the list empty; on failure the nodes before have been replayed, and of the failing one exactly the parts done before the failure |
| `RollForward.ReplayPerInode` | recovery.c:15-44 | Each inode receives its nodes up to and including its last fsynced dnode and nothing later, and its dentry at most once, from its last inode block with both marks |
| `RollForward.SameChain` | recovery.c:345-433 | A log has at most one complete chain from its start, so both passes walk the same one |
| `RollForward.LastIsLast` | recovery.c:15-44 | No later node of the inode carries the mark, and no later inode block both marks |
| `RollForward.CompleteIsDistinct` | recovery.c:415-428 | A chain that ends visits no block twice |
| `RollForward.Unhealthy` | recovery.c:345-433 | A walk that meets a fault or runs past the limit is on a chain that is not healthy |
| `RecoverIndex.Volume.RecoverIndices` | recovery.c:562-726 | Block ownership stays exact even on failure; success fixes every slot of the volume and restores the logged dnode if and only if it names no block twice; with nothing failing below, success is decided by the state before |
| `RecoverIndex.Volume.RecoverOne` | recovery.c:622-713 | One address: ownership is kept, on success the state is that of one more address in force, and it succeeds exactly when the range and owner checks pass and nothing it needs from below fails; on failure at most its own slot has been emptied or reserved |
| `RecoverIndex.Volume.ReleaseOwner` | recovery.c:443-560 | On success nobody holds the block and only its holder has changed; it fails exactly if the block is held and its owner cannot be read, cannot be found, or lies past the size; a failure changes nothing |
| `RecoverIndex.RestoredIff` | recovery.c:622-713 | The final dnode equals the logged one if and only if the logged blocks are distinct |
| `RecoverIndex.PassesLater` | recovery.c:484-489 | Taking over earlier addresses does not change whether a later one passes |
| `RecoverIndex.OwnerInLargerNodeRefused` | recovery.c:484-489 | A healthy volume on which recovery of a distinct, in-range address is refused |
| `ExtentCache.ExtentTree.Update` | extent_cache.c:531-664 | After any update the tree is sorted, disjoint, holds every run of blocks in one piece and repeats the new offset-to-block map; what stays cached is exactly the new range and the old pieces long enough to keep; largest is no shorter than the node of the new range and than every piece kept of a cut one, gives way only to a longer one unless the range meets it, and a change marks the inode dirty; the tree is given up if and only if a node was met while the former largest, every leftover and the new extent with the runs it continues are all short |
| `ExtentCache.ExtentTree.Lookup` | extent_cache.c:410-457 | A hit through largest, cached node or tree covers the offset and agrees with the file's map |
| `ExtentCache.ExtentTree.ClearRange` | extent_cache.c:564-632 | The range is cut out of every extent it meets, and what remains is the old tree carved; largest is emptied if it meets the range and follows the pieces kept |
| `ExtentCache.ExtentTree.Invalidate` | extent_cache.c:576-632 | The sweep ends with exactly the carved tree, and at the place where the new extent belongs |
| `ExtentCache.ExtentTree.InvalidateOne` | extent_cache.c:577-632 | One overlapped extent is trimmed, split or removed as its two leftovers allow, and largest is no shorter than what is kept |
| `ExtentCache.ExtentTree.MergeOrInsert` | extent_cache.c:459-529 | The new extent is joined to its neighbours on either side, or inserted between them, and becomes largest exactly if it is then longer |
| `ExtentCache.ExtentTree.Evict` | extent_cache.c:707-781 | Dropping a node for memory keeps the cache sound |
| `ExtentCache.ExtentTree.Drop` | extent_cache.c:799-818 | Dropping the tree leaves it empty with no largest extent and marks the inode |
| `ExtentCache.ExtentTree.DestroyNodes` | extent_cache.c:783-797 | The nodes go, largest stays, and the cache stays sound |
| `ExtentCache.ExtentTree.TryUpdateLargest` | f2fs.h:917-924 | largest stays the longer of the two and tells the truth of every file that both tell it of |
| `ExtentCache.ExtentTree.InitFromInode` | extent_cache.c:362-400 | A cache filled from the inode's extent is sound |
| `ExtentCache.CarveMaps` | extent_cache.c:585-628 | A carved tree maps an offset exactly if the old one did and the offset survives the cut |
| `ExtentCache.CarveOrdered` | extent_cache.c:585-628 | Carving keeps extents sorted and disjoint |
| `ExtentCache.PlaceMaps` | extent_cache.c:459-529 | Merging or inserting adds exactly the mappings of the new extent |
| `ExtentCache.PlaceOrdered` | extent_cache.c:459-529 | Merging or inserting keeps extents sorted and disjoint |
| `ExtentCache.PlaceSeparate` | extent_cache.c:459-493 | Placing an extent leaves no two nodes that could be one |
| `ExtentCache.CarveSeparate` | extent_cache.c:585-628 | Neither does cutting a range out |
| `ExtentCache.SmallIff` | extent_cache.c:643-650 | What largest was compared with is all short if and only if the tree before the update says so: no leftover kept, and the new extent with the runs it continues short |
| `ExtentCache.TreeMapsUnique` | extent_cache.c:410-457 | A sorted disjoint tree maps an offset to one block |
| `DentryBlock.RoomForFilename` | dir.c:675-693 | First fit, and the block size exactly when nothing fits |
| `DentryBlock.FindTarget` | dir.c:287-334 | The entry with this name and hash if there is one; otherwise the longest free run |
| `DentryBlock.UpdateDentry` | dir.c:709-729 | Writes the entry into free slots, keeps the block well formed and tight, and leaves every other entry as it was, name bytes included |
| `DentryBlock.ClearEntry` | dir.c:948-951 | Clears exactly the slots of one entry and keeps the others |
| `Directory.Dir.Find` | dir.c:402-450 | The position of the entry if the directory map has the name, missing exactly if it has not; it fails exactly at the first page that cannot be had before the answer is known, with the error of that page; and a hint that skips only levels without room |
| `Directory.Dir.FindInLevel` | dir.c:336-400 | A level is searched in the bucket of the hash, every page up to the answer could be had, and a failed search sets the hint exactly where there is room |
| `Directory.ScanBucket` | dir.c:336-389 | The 32-bit block loop sees every block of the bucket that exists, and stops at the first page that cannot be had |
| `Directory.Dir.AddRegular` | dir.c:731-826 | Adds exactly this entry to the map, on the lowest level with room from the starting level on, in the first slots that fit; the outcome is that of the first page asked for that has room or cannot be had, in visiting order; on failure the map is unchanged |
| `Directory.Dir.FindRoom` | dir.c:767-785 | The first slots that fit in the first block of the bucket that has them |
| `Directory.Dir.Insert` | dir.c:787-826 | The entry is in the map, below i_current_depth and in its bucket |
| `Directory.Dir.AddLink` | dir.c:846-881 | A name that is there gives EEXIST, or the error of a page before it that cannot be had; one that is not is added as the search for room says from the level of the hint before the lookup, unless the lookup stops at a page that cannot be had; on failure nothing changes |
| `Directory.RoomTaken` | dir.c:755-790 | Where the pages asked for can be had, a level below the maximal depth with room is reached and its block taken |
| `Directory.ProbeHinted` | dir.c:747-750 | After a lookup in vain, starting at the level of its hint finds the block that starting from the bottom would |
| `Directory.Dir.Delete` | dir.c:928-979 | Removes exactly this name; the block is given back exactly when its last entry has gone |
| `Directory.DirBlockIndex` | dir.c:186-197 | The block where a bucket starts |
| `Directory.BaseIs` | dir.c:29-43 | Below half the maximal depth the levels double: how many blocks come before each |
| `Directory.BucketsApart` | dir.c:29-43 | No block lies in two buckets |
| `Directory.BucketsTile` | dir.c:186-197 | Every block below the base of a level lies in a bucket of a lower level |
| `Directory.PutKeeps` | dir.c:787-826 | Filling a free slot of the right bucket with an absent name keeps slots and map consistent and adds that name |
| `Directory.ClearKeeps` | dir.c:928-979 | Emptying a slot keeps slots and map consistent and removes that name |
| `InlineDir.Inode.MoveInlineDirents` | inline.c:393-464 | Conversion by copying keeps every entry and is all or nothing |
| `InlineDir.Inode.AddInlineEntries` | inline.c:466-516 | Re-adding yields exactly the inline entries, or leaves no dentry block behind; it fails exactly with the error of the first entry, in slot order, whose first page cannot be had |
| `InlineDir.ProbeFirst` | dir.c:767-785 | While inline entries are re-added the first page of each always has room |
| `InlineDir.Inode.MoveRehashedDirents` | inline.c:518-566 | Conversion by rehashing keeps every entry up to its type; on failure the inline area is as before; the outcome is decided before: no memory, no level left, or the first entry in slot order whose first page cannot be had |
| `InlineDir.Inode.Convert` | inline.c:568-575 | Either conversion is all or nothing, succeeds exactly if nothing named keeps it from it, and says EAGAIN exactly where a layer below does |
| `InlineDir.Inode.AddInline` | inline.c:617-679 | Adds the entry inline if it fits, otherwise converts; the outcome is that of the layer below that fails |
| `InlineDir.Inode.AddDentry` | dir.c:828-844 | The entry is added to what was there, across a conversion if one is needed, and nothing is lost when it fails, with the answer decided on each path by the layers below; after a conversion the first page asked for has room; except that the entry cannot be found exactly where an EAGAIN from below was taken for a conversion |
| `InlineDir.Inode.FindEntry` | inline.c:336-368 | Lookup in either form answers as the map does, and fails exactly at a page that cannot be had before the answer is known |
| `InlineDir.RehashedType` | dir.c:45-76 | A file type survives rehashing if and only if it is a known one; name, hash and inode number always do, and so does what readdir reports |
| `InlineDir.CopiedWF` | inline.c:426-438 | The copied block is well formed and has the same entries |
| `Readdir.FillDentries` | dir.c:1018-1100 | Hands out the entries from a slot on, in order, and leaves the position at the first one not handed out |
| `Readdir.ReadDir` | dir.c:1102-1173 | What was handed out and what lies ahead make the listing from the old position, and the new position is the 32-bit one of the entry not taken, or the end; stops only at the end, a full buffer or an error |
| `Readdir.ResumedIff` | dir.c:1102-1173 | From any start, however calls are split, they hand out the entries from the start on, each once, in order and in the end all of them, if and only if the condition holds; below 2^32 it is that positions stay below 2^32 or nothing lies at or after the place the end position wraps to |
| `Readdir.ListedAgain` | dir.c:1130-1130 | A concrete sparse directory of 20069942 pages where two calls in a row hand out the same entry |
| `Readdir.ResumedBelow` | dir.c:1102-1173 | The same for starts below 2^32, for any number of pages |
| `Readdir.AheadExact` | dir.c:1102-1173 | One call lists exactly the entries it comes past: in its first block from its slot on, in later blocks from the slot where the 32-bit position enters them |
| `Readdir.AheadAscending` | dir.c:1102-1173 | And each of them once, in order |
| `Readdir.NoRepeatIff` | dir.c:1110-1124 | Nothing before a position is listed if and only if its block number fits into 32 bits or no live entry lies past the slot it is cut to |
| `Readdir.ListedBefore` | dir.c:1110-1110 | A concrete position from which an entry before it is listed |
| `Readdir.ReadInline` | inline.c:735-769 | The same split law for an inline directory |
| `Readdir.InlineNoRepeatIff` | inline.c:735-769 | Nothing before a position is listed if and only if the position is at most d.max or no live entry lies at or after the slot it wraps to |
| `Readdir.InlineListedBefore` | inline.c:735-769 | A concrete inline area and position where an entry comes back |
| `Readdir.InlineAscending` | inline.c:735-769 | An inline listing has each entry once and in order |
| `Decompress.ExactlyOnce` | f2fs.h:1579-1608 | Every run ends after a bounded number of steps, and where it ends the cluster was finished exactly once and the context freed exactly once |
| `Decompress.NoUseAfterFree` | compress.c:1567-1732 | No step of any interleaving touches a freed context |
| `Decompress.FreedLastAndOnce` | compress.c:1650-1658 | The context is freed only after the last page reference is dropped, and once |
| `Decompress.RunInv` | data.c:2290-2354 | The reference and page counts are right in every state of every run |
| `Decompress.InvNext` | compress.c:840-857 | Every step of submitter and completions keeps the counts right |
| `Decompress.Decreases` | data.c:229-256 | Every step leaves less to do, so runs end |
| `Decompress.CanStep` | data.c:124-158 | A context not yet freed can always take a step |
| `Decompress.DecompressSound` | compress.c:741-756 | The cluster is decompressed only when no page failed to be read and none is outstanding |
| `Decompress.FailedIff` | data.c:124-158 | In every state of every run the cluster is marked as failed if and only if some page read so far has failed |
| `Decompress.CanDecompress` | compress.c:741-756 | When its turn comes, a cluster can be decompressed with success if and only if no page read has failed |
| `Decompress.Succeeds` | data.c:2290-2354 | From every state without failure the cluster can be decompressed with success and the context freed, whichever pages are cached |
| `RangeShift.File.Collapse` | file.c:1366-1427 | Whether it succeeds, and where it stops, follows from the state before and the layers below; on success the size follows, nothing is left past the end, and the pages are the old ones without the range if and only if each copied page that was not written out reads the same without it; stopped on the way, a read finds each moved page at its new and each other at its old place if and only if no page left in the cache hides one and roll-back loses nothing; an unfit range changes nothing |
| `RangeShift.CollapseInPlace` | file.c:1402-1414 | The if-and-only-if for a collapse that broke |
| `RangeShift.StalePageHides` | file.c:1279-1309 | A concrete file and failure after which no read returns a block that was handed over |
| `RangeShift.CollapseAllMoved` | file.c:1416-1426 | The same for a collapse that moved everything, whether or not the tail is cut |
| `RangeShift.File.Insert` | file.c:1587-1659 | Succeeds if and only if the offset is before the end, offset and length are whole pages, the file may grow so far, and truncation, write-out and each move from the top down run to their end; a range that does not fit changes nothing; on success the pages are the old ones with a hole inserted if and only if each copied page that was not written out holds zeroes; on failure, nothing being lost on the way, every page is where it was or where it was to go |
| `RangeShift.CopyNotWritten` | file.c:1411-1418 | A concrete file on which both conditions fail |
| `RangeShift.NothingLostIff` | file.c:1202-1224 | A failed move keeps everything not moved in place if and only if the blocks that roll-back frees, between where it stopped and what it had taken out, read as zeroes |
| `RangeShift.RollBackLoses` | file.c:1214-1217 | A concrete move whose roll-back loses a block |
| `RangeShift.File.Exchange` | file.c:1314-1364 | It stops where the source pages and the layers below make it stop, and succeeds exactly if that is the end; the chunks together move the range and empty its source; a failure keeps everything not moved in place but the blocks that roll-back cannot put back, and fixes cache and disk page by page |
| `RangeShift.File.ExchangeChunk` | file.c:1333-1351 | One chunk is moved or rolled back |
| `RangeShift.File.Clone` | file.c:1226-1312 | A chunk is moved page by page, handed over or copied, with the copied pages left in the cache, or stops at the first page that fails where one can |
| `RangeShift.File.HandOverRun` | file.c:1250-1278 | A run of handed-over addresses and holes within one dnode |
| `RangeShift.File.CopyPage` | file.c:1279-1309 | One page is copied through the cache and its source punched |
| `RangeShift.File.ReadOut` | file.c:1147-1200 | Addresses are noted and taken out so that putting them back restores the state; fails exactly on a bad page or, in log-structured mode, on a block outside the checkpoint |
| `RangeShift.File.RollBack` | file.c:1202-1224 | Puts back exactly the addresses taken out and not placed whose dnode is found |
| `RangeShift.MovedThen` | file.c:1314-1364 | Two moves in a row are one, also when source and target overlap downwards |
| `RangeShift.MovedBefore` | file.c:1634-1646 | A move upwards may be made in pieces from the top down |
| `Victim.Selector.GetVictim` | gc.c:686-917 | Every search that ends takes at most three passes; a victim not queued is never in a current section or the one being collected; in a target search it matches; a scanned victim is a candidate seen at least cost, or the choice from the tree of those old enough under the threshold of its pass; not by age, only a full segment (SSR), a section of twice the blocks it has (greedy) or one without benefit is passed over; without targets and with budget for all that is dirty, no victim means that every legal dirty unit is that dear; otherwise nothing was dirty or the last pass, without targets, found nothing |
| `Victim.GainIsNotDear` | gc.c:266-285 | A unit with fewer valid blocks than it has is never too dear for SSR or greedy cleaning |
| `Victim.Selector.Search` | gc.c:710-890 | One retry without age limit, one without targets, and what the last scan says |
| `Victim.GatheredAll` | gc.c:450-484 | Without an age limit exactly the candidates that are not barred are in the tree |
| `Victim.RetryTakesYoung` | gc.c:873-877 | A concrete pass that passes over a young section, which the retry takes from the same candidates |
| `Victim.Selector.RunPass` | gc.c:221-285 | One pass under the policy for the allocation mode |
| `Victim.Selector.Shortcut` | gc.c:740-771 | A queued segment first, then the first marked section not in use, and in a target search only where it matches |
| `Victim.Selector.CheckBgVictims` | gc.c:287-304 | The first marked section not in use, unmarked; or all marked sections are in use |
| `Victim.Pass` | gc.c:773-865 | The scan ends with the cheapest candidate seen; the budget counts what is charged; a pass that does not spend it has seen every dirty unit within its two bounds; one that does leaves the next search to start behind the unit looked at last |
| `Victim.EndsIff` | gc.c:773-865 | A pass ends if and only if its bounds are at whole units, or the unit that straddles the bound is charged, or the budget runs out before |
| `Victim.TargetPassSticks` | gc.c:777-795 | A concrete target pass over a dirty section that goes on for ever |
| `Victim.UsuallyEnds` | gc.c:773-865 | Passes without targets, and passes with whole-unit bounds, end |
| `Victim.AlignedEnds` | gc.c:710-890 | A search for targets whose last victim is at a whole section ends, the retry without age limit included |
| `Victim.StepInv` | gc.c:773-865 | One turn of the scan keeps the best candidate, the count and the swept range right |
| `Victim.SeesAll` | gc.c:773-865 | A pass without targets, over whole units and with budget for all that is dirty, looks at every dirty unit |
| `Victim.FallbackSeesAllIff` | gc.c:883-890 | After a search for targets that found none, the search without targets looks at everything dirty if and only if the last victim was at the start or everything dirty lies before it |
| `Victim.FallbackMisses` | gc.c:777-789 | A concrete foreground search that ends without victim although a section could be cleaned |
| `Atgc.CostFits` | gc.c:498-556 | No product of the age-based cost leaves 64 bits, and age and free space together stay below UINT_MAX, for any time span and any weight in percent |
| `Atgc.CostOrder` | gc.c:537-552 | Of two candidates the one as old or older with as few or fewer valid blocks never costs more |
| `Atgc.CostExtremes` | gc.c:537-552 | The oldest candidate has the whole share of age; a weight of 0 leaves age out, one of 100 free space |
| `Atgc.Lookup` | gc.c:498-572 | The cheapest, among equals the oldest, and among those the first, of the candidates within the times, up to the threshold |
| `SwodWindow.FindWindow` | swod.c:752-863 | The shortest of the short windows, of equals the one with the least alive and of those the first, or else a longest complete one with the least alive and of dated ones an oldest, or none exactly if no window qualifies |
| `SwodWindow.WindowFeatures` | swod.c:340-375 | Commands, piece size and pending blocks of a window, cut to 16 bits as the source does |
| `SwodWindow.PieceIs` | swod.c:340-375 | The piece size is the scaled mean rounded down where it fits into 16 bits, and zero without commands |
| `SwodWindow.ShortStep` | swod.c:788-829 | One more window considered keeps the best short one |
| `SwodWindow.CompleteStep` | swod.c:831-856 | One more window considered keeps the best complete one |
| `Swod.Ctrl.EvalGroup` | swod.c:693-926 | Maps and counters stay right; an active window is kept until it is ready, expired or too long; otherwise the best window is held exactly if there is room or it beats the weakest held window, which then gives way; above a limit that has been lowered nothing is added |
| `Swod.Ctrl.HoldBest` | swod.c:752-926 | What becomes of the best window found, below, at and above the limit |
| `Swod.Ctrl.SetMaxHeld` | sysfs.c:855-860 | The limit is set to any number from 1 to 2^32 - 1 |
| `Swod.Ctrl.Install` | swod.c:420-486 | The group holds the window, and the maps and counters follow |
| `Swod.Ctrl.ClearGroup` | swod.c:187-242 | The group is clear, and the maps and counters follow |
| `Swod.Ctrl.NSegsHas` | swod.c:14-30 | The groups share out the segments of the volume: each segment that exists lies in one group, among its first, and no other does |
| `Swod.Ctrl.TryPark` | swod.c:502-574 | A window is parked exactly if it is held, fit, not released for success, and there is room or a parked window of lower score; then the first of the lowest gives way |
| `Swod.Ctrl.Release` | swod.c:576-583 | The group is parked exactly if it may be and cleared otherwise; no other group changes but the parked one that makes room |
| `Swod.Ctrl.ReleaseAll` | swod.c:1198-1212 | Every group is clear, every map empty, every counter zero |
| `Swod.Ctrl.Sweep` | swod.c:1227-1253 | If any group is held every expired one is let go, parked where it may be, and nothing is swept otherwise |
| `Swod.Ctrl.RangeHeld` | swod.c:1283-1306 | True exactly if a segment of the range is held |
| `Swod.Ctrl.RangeTarget` | swod.c:1322-1349 | True exactly if a segment of the range is held, parked or a target |
| `Swod.Ctrl.WceMatch` | gc.c:376-386 | True exactly if the first segment lies in a held window fit for completion |
| `Swod.Ctrl.TargetsInVain` | swod.c:1308-1320 | With no window held a target pass is started exactly if one is parked, and no segment matches |
| `Swod.MirrorSet` | swod.c:474-482 | A map stays the union of the windows of its groups when a window is put in |
| `Swod.MirrorClear` | swod.c:230-235 | A map stays the union of the windows of its groups when a group is cleared |
| `Swod.CountUpdate` | swod.c:199-207 | A counter of groups changes with the one group that changes |
| `FreeSegmap.FreeMap.SetFree` | segment.h:442-461 | Counters stay right if and only if the segment was in use and its section too where it falls free; a usable segment in use keeps its section in use |
| `FreeSegmap.FreeMap.SetInUse` | segment.h:463-473 | Counters stay right if and only if the segment was free |
| `FreeSegmap.FreeMap.SetTestAndFree` | segment.h:475-499 | Counters always stay right, and a current section is kept back unless told otherwise |
| `FreeSegmap.FreeMap.SetTestAndInUse` | segment.h:501-514 | Counters always stay right |
| `SitEntry.CheckBlockCount` | segment.h:722-766 | An entry passes if and only if its count is the number of usable bits set and the segment exists, and without a warning if and only if that is the count of the whole map |
| `FreeSegmap.CountersInRange` | segment.h:442-514 | The counters never leave their range |
| `NodeTree.PathFound` | node.c:681-758 | Every block below max_inode_blocks is found in a direct node at the place that the node's start says, and no other block is |
| `NodeTree.PathBack` | gc.c:1065-1085 | Each address of each direct node is found again by its block index |
| `NodeTree.PathOfLeaf` | node.c:681-758 | The whole path to a leaf: its nodes are not direct nodes, and offsets grow on the way |
| `NodeTree.Tiling` | gc.c:1065-1085 | Direct nodes in order cover the file in order, and neighbours leave no gap |
| `NodeTree.TilingEnds` | data.c:1907-1924 | The tiling starts at 0 and ends at max_inode_blocks |
| `NodeTree.DnodeOfLeaf` | node.h:329-366 | The offsets in the layout are accepted by IS_DNODE and numbered in order |
| `NodeTree.LeafOfDnode` | node.h:350-366 | Every offset IS_DNODE accepts, but the inode, is in the layout |
| `Acl.ToDisk` | acl.c:113-166 | Succeeds exactly on known tags and lays out the encoding |
| `Acl.FromDisk` | acl.c:46-111 | Accepts exactly the encodings of non-empty ACLs of the stated size, and returns such an ACL; leaves its buffer exactly on the values named, and then always refuses |
| `Acl.EncodesOnce` | acl.c:46-111 | The ACL read back is the one written |
| `Acl.RoundTripIff` | acl.c:17-27 | What is stored of an ACL reads back as that ACL if and only if its entries fit the size formula, and otherwise as no ACL at all |
| `Acl.ReadBackOverruns` | acl.c:70-73 | Reading it back leaves the buffer if and only if more entries are named than the size allows for |
| `Acl.ValidFits` | acl.c:17-27 | Every valid ACL does |
| `Acl.CountInverts` | acl.c:17-44 | f2fs_acl_count inverts f2fs_acl_size both ways |

## Left out

- Checkpoint: versions are assumed not to wrap at 2^64, checksums are ideal (only a block that was written as a checkpoint block passes), and `nobarrier` is off.
- Checkpoint: flushing dirty data, quota and NAT/SIT journals before a checkpoint, and the checkpoint thread.
- RollForward: the `check_only` mode and what each part of a replay does to inode fields, xattrs, quota and dentries.
- RecoverIndex: compressed files (COMPRESS_ADDR), inline data and xattr recovery, and i_size.
- ExtentCache.ExtentTree.Update: does not model compressed extents, the LRU order, or 32-bit wrap-around of offsets and blocks, because the fields cannot reach it in a file of legal size.
- ExtentCache: red-black balancing (the tree is a sorted sequence), slab accounting and locks.
- Directory.Dir.AddLink: for an absent name that fits into no block or whose buckets lie past 2^32 blocks, which no legal file reaches, says only that the search for room starts at some level, because the lookup's 32-bit block numbers then name other blocks.
- InlineDir.Inode.AddDentry: that the first page has room after a conversion is stated where the inline slots and those of the name together fit into a block, which holds of every legal name.
- Directory: casefolded and encrypted names; the hash is an arbitrary function of the name; `i_current_depth` above its maximum.
- InlineDir: that dentry blocks and inline area share addresses in the inode page.
- InlineDir: padding bits of the inline bitmap past the last slot, taken to be clear.
- Readdir: readahead, signals and encrypted names; that a directory has fewer than 2^32 pages is a limit of the file size.
- Decompress: the codecs, page locking and fs-verity itself.
- RangeShift.File.Exchange: within one inode only, because collapse and insert use no other; missing dnodes read as holes.
- Victim: the cost-benefit formula (any cost is allowed), the lookup for AT_SSR, and tracing; `Victim` lets the choice by age be any one in the tree and `Atgc` says which it is.
- Orphans: what deleting an inode does, 16-bit block counts, and mounts of read-only devices, which skip recovery; writing a pack is one step here (`Checkpoint` has its single blocks).
- Swod: deadlines, pressure, readiness and the score of a parked window are inputs; sums over the segments of a window do not wrap.
- Swod: initial memory is taken to be cleared; skipping of single commands, the background work and fragment IPU.
- FreeSegmap: locking and the choice of a free segment.
- NodeTree: 32-bit overflow, which legal sizes do not reach, and compressed files' rounding of addresses per block.
- Acl: permission evaluation, inheritance and user namespaces.
- Constants of `linux/f2fs_fs.h`, which is not part of this model, are parameters.
- Segment allocation, data and node I/O, block mapping, quota, xattrs, ioctls, mount options, sysfs, debugfs, compression codecs, fs-verity and encryption.
