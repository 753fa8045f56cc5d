# NexOS storage stack in Dafny

This project models the storage stack of NexOS, and the descriptor ring of its AC97
driver, and proves what its parts are for:

- **NXFS** (`fs/nxfs.c`, image creation in `tools/nxfs_host.c`): bitmap and extent
  allocator, inodes, directories and files. Every run of create, mkdir, write, truncate,
  unlink and rmdir from a fresh image, with any paths and failing operations included, keeps
  each block with at most one owner and marked, and follows an abstract file system in which
  directories are finite maps and files are byte sequences; one kind of rmdir, stated below,
  ends this. Each operation succeeds exactly when it can: although blocks are taken greedily,
  growth fails only if no choice of free runs would have been enough. The bitmap marks the
  metadata and the owned blocks and nothing else until an operation meets a stated condition,
  and from then on it marks more. Runs are determined: two volumes with the same bitmap,
  blocks and tree stay so under the same operations, and the same ones succeed.
- **The NXFS block cache** (`fs/nxfs_io.c`): it may hold several copies of one block, some
  of them stale, and still every read returns what the device holds. Until the 32-bit clock
  may wrap, no client that stays in range, choosing each request from all answers so far, can
  tell the cache from a reliable device.
- **NXFS over FUSE** (`NXFS/nxfs.c`): the same format with rollback and partial truncate;
  here the bitmap marks exactly the metadata and owned blocks after every operation, each
  operation succeeds exactly when it can, and runs are determined as above.
- **FAT32** (`fs/fat32_*.c`, `fs/fat32.c`; the Microsoft FAT Specification): mirrored
  tables as a set of disjoint chains, range reads that coalesce clusters, range writes with
  the directory entry written back, long names, short aliases, creating and deleting directory
  entries, mkdir, unlink and rmdir. Over every run of these in one directory, failures
  included, no cluster is lost or shared, each operation succeeds exactly when it can and
  changes lengths and free clusters by exactly what follows from the state before it, and
  every other entry, name and content stays as it was; runs are determined as above.
- **The block layer** (`block/blockdev.c`): references against removal over every
  interleaving of lock-held sections, the merging request queue, and the direct-mapped
  read cache.
- **The AC97 ring** (`drivers/dummy/ac97_drv.c`): the driver never writes a descriptor the
  hardware owns.

Code that changes state is modelled by methods on classes, with the disk as a sequence of
512-byte blocks; what it means is stated with ghost functions over that state. A device
that may fail is a method whose outcome is chosen arbitrarily. Spinlock-held sections are
atomic steps. `dafny verify dfyconfig.toml` checks the whole project.

Modules, from the bottom up: `Bitmap`, `Extents`, `Bytes`, `Contents`, `Coverage`, `Traces`,
`Runs` (shared vocabulary); `NxfsAlloc`, `NxfsGrow`, `NxfsDir`, `NxfsState`, `NxfsTree`,
`NxfsLayout`, `NxfsDirOps`, `NxfsOps`, `NxfsPaths`, `NxfsRemove`, `NxfsFiles`, `NxfsRun`,
`NxfsAgree`, `NxfsCache` (kernel NXFS); `FuseAlloc`, `FuseLayout`, `FuseOps`, `FuseFiles`,
`FuseRun`, `FuseAgree`; `BlockRegistry`, `BlockRemoval`, `BlockQueue`, `BlockReadCache`;
`FatTable`, `FatChains`, `FatFiles`, `FatWrite`, `FatNames`, `FatDirs`, `FatAlias`,
`FatEntries`, `FatCreate`, `FatUpdate`, `FatDelete`, `FatRun`, `FatAgree`; `Ac97Ring`.

Where the code differs from what a reader might expect, the model follows the code and the
difference is proved:

- Kernel `nxfs_ensure_blocks` does not give back the runs it took before it failed
  (`fs/nxfs.c:445-452`), so there the bitmap may mark blocks nobody owns;
  `NxfsRun.RunFromMkfs` states exactly when, and `NxfsRun.SpillExample` is a volume on which
  it happens.
- Kernel `nxfs_rmdir_path` reads the parent directory before it frees the directory to be
  removed and writes it back afterwards (`fs/nxfs.c:1382-1393`). For a path that ends in "."
  the two are one inode, so the directory stays, without its "." and with blocks that are no
  longer marked. `NxfsRun.StepKeeps` states that this is the only way a run loses block
  ownership, and `NxfsRun.RmdirDotExample` is the shortest such run.
- The FUSE write and truncate cast a 64-bit block count to 32 bits (`NXFS/nxfs.c:689`,
  `NXFS/nxfs.c:767`). A write or truncation stores what was asked for exactly if it ends at
  or below 2^41 - 512 (`FuseFiles.WriteInode`, `FuseFiles.TruncatedRight`); truncating to 2^41
  bytes succeeds and empties the file (`FuseFiles.TruncatedToNothing`). Ownership and the
  account of the bitmap hold regardless.
- A FAT32 write computes the end of a sector in 32 bits, so the last sector below 2^32 has an
  empty window (`fs/fat32_file.c:282`). `FatWrite.WindowsRight` and `FatUpdate.WrittenRight`
  state that windows and writes are right exactly up to an end of 2^32 - 512, and
  `FatUpdate.LastSectorLost` that a write which starts beyond takes every free cluster and
  fails.
- The count of a merged request is a 32-bit sum; `BlockQueue.MergeExact` shows merging is
  right exactly when it does not wrap, and `BlockQueue.RunOps` asks only that no single run
  of requests that continue one another wraps it.
- A long name of 248 or more bytes is written but not read back (`FatNames.LongNameLost`),
  and an upper-case short name that ends in a period loses it
  (`FatAlias.ShortNameRoundTrip`). `FatCreate.NewEntryFound` states exactly which new
  entries a lookup finds; only where entries of an abandoned long name right before the
  new one spell it is a short name that ends in a period found all the same.
- Removal from the device registry relies on rules its callers must keep;
  `BlockRemoval.ProtectionRuleNeeded`, `BlockRemoval.RegisterRuleNeeded` and
  `BlockRemoval.SecondRegisterRuleNeeded` show that without any one of them a device in use
  can leave the registry. Unregistering needs no rule: two threads may do it at once.

## Model

| member | source | states |
|---|---|---|
| Bitmap.BlockWithBit | fs/nxfs.c:125-135 | setting or clearing one bit of a bitmap block changes that bit and no other |
| Bitmap.FreeCountMarked | fs/nxfs.c:170-208 | marking a free run of `len` blocks lowers the number of free blocks by exactly `len` |
| Extents.BlockCount | fs/nxfs.c:32-39 | the sum of the extent lengths is the length of the logical-to-physical block map |
| Extents.LogicalToPhysical | fs/nxfs.c:57-70 | walking the extents gives entry `logical` of the block map, and -1 exactly past its end |
| NxfsAlloc.BitmapSetRange | fs/nxfs.c:137-168 | the chunked loop over bitmap blocks equals setting the range bit by bit, touches only the bitmap, and refuses exactly the ranges outside the volume |
| NxfsAlloc.CountFreeBits | fs/nxfs.c:170-208 | counting in one bitmap block advances the bit-by-bit count of free blocks |
| NxfsAlloc.SpaceInfo | fs/nxfs.c:170-208 | the count reported block by block is the number of clear bits of the whole volume |
| NxfsAlloc.ScanBitmapBlock | fs/nxfs.c:221-272 | one bitmap block of the first-fit scan, with the current run carried over the boundary from the block before |
| NxfsAlloc.AllocExtent | fs/nxfs.c:221-272 | returns and marks the lowest run of `len` free blocks at or above the data area, lowers the number of free blocks by exactly `len`, and fails only if no such run exists |
| NxfsAlloc.FreeExtent | fs/nxfs.c:274-279 | clears exactly the bits of the run |
| NxfsAlloc.RunIsFreeInBlock | fs/nxfs.c:291-335 | one bitmap block of the free-range test |
| NxfsAlloc.RangeIsFree | fs/nxfs.c:291-335 | the chunked test holds exactly when every block of the range is free |
| NxfsGrow.FindLast | fs/nxfs.c:87-112 | the last extent in use; all later slots are empty |
| NxfsGrow.AppendExtent | fs/nxfs.c:87-112 | appends the run to the block map, merging with the last extent where they touch; fails exactly for an empty run, or when it does not continue the last extent and every slot is taken |
| NxfsGrow.TryExtendLastExtent | fs/nxfs.c:337-382 | lengthens the last extent in place exactly when the `len` blocks after it are free; otherwise nothing changes |
| NxfsGrow.ZeroTail | fs/nxfs.c:384-469 | the blocks just added are zero-filled and nothing else is |
| NxfsGrow.ExtendInPlace | fs/nxfs.c:384-469 | one pass of the extend loop: takes the longest free run right after the last extent, at most what is wanted; the blocks were free, are now marked, zeroed and appended to the block map |
| NxfsGrow.ExtendPass | fs/nxfs.c:384-469 | the first half of a pass: lengthening the last extent as far as it goes, as a step of growing |
| NxfsGrow.AllocLongestRun | fs/nxfs.c:384-469 | counting the length down finds and marks a longest free run, at most what is wanted; none exactly when no data block is free |
| NxfsGrow.AllocateRun | fs/nxfs.c:384-469 | one pass of the allocate loop: the longest free run becomes a new extent; fails exactly when no data block is free or no slot is empty, and then the bitmap is as it was |
| NxfsGrow.GrowPass | fs/nxfs.c:384-469 | one pass of both loops: it gets stuck exactly when no block after the last extent is free and either no data block is free or no slot is empty, and otherwise leaves the chance of reaching the goal what it was; the runs taken are those the rule for the next run gives |
| NxfsGrow.EnsureBlocks | fs/nxfs.c:384-469 | success: the block count is max(old, need), the old block map is a prefix of the new one, every added block was free and is now marked and zero, and nothing else on disk changed; it succeeds if and only if, on the bitmap before, the run after the last extent and as many free runs as there are empty slots can hold the missing blocks; failure leaves the inode untouched, and blocks taken and not given back exactly if the block after the last extent is free, or a data block is free and a slot is empty; which blocks are taken, in which order, and how many slots are left follows a rule for the next run, from the blocks after the last one or else the lowest of the longest free runs |
| NxfsGrow.OneLongest | fs/nxfs.c:384-469 | the lowest of the longest free runs, at most what is wanted, is one run |
| NxfsGrow.GrewOnce | fs/nxfs.c:384-469 | the bitmap, block map and number of empty slots determine whether growing succeeds, which blocks it takes and how many slots it leaves |
| Traces.EndOnce | fs/nxfs.c:384-469 | a procedure each of whose steps is determined ends in one state only |
| NxfsGrow.OneBlock | fs/nxfs.c:384-469 | an inode without blocks can get one, and takes one, exactly when a data block is free |
| Coverage.CoverLongest | fs/nxfs.c:384-469 | exchange argument: blocks can be covered by a number of free runs if and only if taking a longest run first leaves the rest coverable with one run fewer |
| Coverage.CoverTail | fs/nxfs.c:384-469 | the free run right after the last extent may be taken whole without losing a way to reach the goal, whatever runs a better choice would use |
| Coverage.ExtendAll | fs/nxfs.c:384-469 | extending in place as far as possible keeps the chance of reaching the goal what it was |
| Coverage.AllocLongest | fs/nxfs.c:384-469 | taking a longest run, once nothing can be extended, keeps the chance of reaching the goal what it was |
| Coverage.StuckStep | fs/nxfs.c:384-469 | when neither loop can go on, no choice of runs would have reached the goal |
| Coverage.NeedsBlocks | fs/nxfs.c:384-469 | whatever the runs, a goal that can be reached is no further away than there are free blocks |
| NxfsDir.SlotWritten | fs/nxfs.c:614-648 | a slot written into a directory block is read back, and the other fifteen are unchanged |
| NxfsDir.SlotsUpdated | fs/nxfs.c:480-487 | rewriting a slot in its block changes exactly that slot of the directory |
| NxfsDir.SlotsGrown | fs/nxfs.c:592-612 | zero-filled blocks appended to a directory add free slots at its end |
| NxfsState.OwnedGrow | fs/nxfs.c:384-469 | giving an inode exactly the blocks taken keeps every block with one owner and marked |
| NxfsState.OwnedDrop | fs/nxfs.c:281-289 | freeing an inode's blocks and dropping its extents keeps ownership and disturbs no other inode |
| NxfsState.OwnedWrite | fs/nxfs.c:480-487 | rewriting a block an inode owns changes no block of any other inode |
| NxfsState.StraysGrow | fs/nxfs.c:384-469 | blocks taken and given to an inode leave the set of marked blocks without an owner as it was |
| NxfsState.StraysMore | fs/nxfs.c:445-452 | the blocks taken by a growth that then fails are exactly what joins the marked blocks without an owner |
| NxfsState.NameMapAdd | fs/nxfs.c:614-648 | filling a free slot with a new name adds that name to the directory's map and keeps names unique |
| NxfsState.NameMapRemove | fs/nxfs.c:650-668 | clearing a slot removes exactly its name from the map |
| NxfsState.NameMapGrow | fs/nxfs.c:592-612 | growing a directory does not change its map |
| NxfsTree.TreeAdd | fs/nxfs.c:614-648 | adding an entry for an inode nobody names yet keeps every inode named at most once and every name valid |
| NxfsTree.TreeRemove | fs/nxfs.c:650-668 | removing an entry keeps the tree well formed and leaves its inode unnamed |
| NxfsTree.AbsStep | fs/nxfs.c:41-49 | a step that changes one inode and disturbs the blocks of no other changes one node of the abstract file system |
| NxfsTree.WalkSnoc | fs/nxfs.c:840-888 | walking a path is walking to its parent and then one step |
| NxfsDirOps.FindInBlock | fs/nxfs.c:543-581 | the first matching slot of a block, or none |
| NxfsDirOps.FindDirEntrySlot | fs/nxfs.c:543-581 | the first matching slot of the whole directory, or a proof that there is none |
| NxfsDirOps.FoundIsMapped | fs/nxfs.c:583-590 | the slot found for a name is the one the directory's map sends the name to; not finding it means it is not in the map |
| NxfsDirOps.DirFindFreeSlot | fs/nxfs.c:592-612 | the first free slot, or else the first slot of eight new zero-filled blocks; fails exactly when there is no free slot and eight more blocks cannot be had; a directory with a free slot keeps its blocks and the bitmap, a full one grows to eight blocks more by exactly the blocks growing takes |
| NxfsLayout.EnteredOnce | fs/nxfs.c:592-612 | what one more entry does to the bitmap and the directory's blocks, and whether there is room for it, is determined by the bitmap, the blocks, the empty slots and whether the directory is full |
| NxfsDirOps.DirAccepts | fs/nxfs.c:614-648 | exactly the names of 1 to 27 bytes that are not in the directory yet are accepted |
| NxfsDirOps.DirPrepare | fs/nxfs.c:614-648 | a slot for the entry, with everything the insertion needs; fails exactly for a bad or taken name or a directory without room that cannot grow; on failure every inode and block in use is as before, and blocks spill exactly under the stated condition on the bitmap before; the directory's blocks and the bitmap change only as growing by eight blocks makes them, and only if it was full |
| NxfsDirOps.WriteEntry | fs/nxfs.c:614-648 | writing the entry and the inode adds it to the directory and changes nothing else |
| NxfsDirOps.DirAddEntry | fs/nxfs.c:614-648 | the directory's map gains the entry and no other node changes; succeeds if and only if the name fits, is new and the directory has or can be given room; on failure nothing in use changes, and blocks stay marked without an owner exactly under the stated condition on the bitmap before; the directory's blocks and the bitmap change only as growing by eight blocks makes them, and only if it was full |
| NxfsDirOps.DirRemoveEntry | fs/nxfs.c:650-668 | succeeds exactly when the name is in the blocks of the directory it is given, clears that slot and no other byte, and writes that directory to the inode table, whatever stood there |
| NxfsDirOps.EntryCleared | fs/nxfs.c:650-668 | for a directory that is in the table this removes the name alone and keeps ownership, bitmap and every other node |
| NxfsDirOps.LiveSlotsExact | fs/nxfs.c:890-930 | enumeration in slot order meets every entry exactly once |
| NxfsDirOps.ListBlock | fs/nxfs.c:890-930 | one directory block of the listing |
| NxfsDirOps.ListDir | fs/nxfs.c:890-930 | lists the first `max` entries in order and counts all of them |
| NxfsDirOps.GetInBlock | fs/nxfs.c:932-978 | one directory block of the search for entry number `index` |
| NxfsDirOps.GetDirEntry | fs/nxfs.c:932-978 | entry `index` is entry `index` of the enumeration, and is absent exactly past its end |
| NxfsDirOps.DirIsEmpty | fs/nxfs.c:670-686 | inspecting sixteen entries decides exactly whether the directory holds only "." and ".." |
| NxfsDirOps.AtMostTwoDots | fs/nxfs.c:670-686 | with unique names at most two entries are dots, which is why sixteen are enough |
| NxfsOps.FreeAllExtents | fs/nxfs.c:281-289 | clears exactly the bits of the inode's blocks |
| NxfsOps.StraysDrop | fs/nxfs.c:281-289 | giving up blocks and clearing their bits leaves none of them marked without an owner |
| NxfsOps.FindFreeInode | fs/nxfs.c:210-219 | the lowest unused inode, or -1 exactly when all are used |
| NxfsOps.LookupChild | fs/nxfs.c:840-888 | one step of a path walk equals one step in the abstract file system |
| NxfsOps.LookupPath | fs/nxfs.c:840-888 | resolves a path to the inode the abstract walk ends at, and fails exactly when the walk does |
| NxfsOps.NewInode | fs/nxfs.c:984-1037 | writing a fresh inode with the blocks just taken keeps all invariants and adds one node |
| NxfsOps.DropInode | fs/nxfs.c:984-1037 | freeing an inode no entry names restores the invariant and removes one node |
| NxfsOps.EntryKeepsTree | fs/nxfs.c:614-648 | adding an entry keeps names unique, links valid and every inode in use reachable |
| NxfsOps.EntryGoneKeepsTree | fs/nxfs.c:1341-1363 | freeing an inode and then removing its only entry restores the invariant |
| NxfsPaths.ResolveParent | fs/nxfs.c:521-541 | the directory a path names an entry of, or failure exactly when there is none |
| NxfsPaths.PrepareCreate | fs/nxfs.c:984-1037 | the checks before a creation: parent directory, unused name, lowest free inode; they pass exactly when the path can be created as far as names and inodes go, and never for "." or ".." |
| NxfsPaths.CreatePath | fs/nxfs.c:984-1037 | adds an empty file under the path, as the lowest unused inode, and changes nothing else; succeeds if and only if names and inodes allow it and the parent directory has or can be given room, so never for "." or ".."; every failure leaves the abstract file system as it was; blocks spill exactly under the condition stated for the parent's growth; every other inode keeps its blocks, and bitmap and parent change only as growing by eight blocks makes them, and only if the parent was full |
| NxfsPaths.CreateIn | fs/nxfs.c:984-1037 | writing a new inode and linking it into its parent, or undoing it |
| NxfsPaths.Publish | fs/nxfs.c:984-1037 | linking a prepared inode into its parent succeeds exactly when its name is new and the parent has or can be given room; the parent's blocks and the bitmap change only as growing makes them |
| NxfsPaths.Discard | fs/nxfs.c:1039-1097 | undoing a half-made inode restores the file system it started from |
| NxfsPaths.AddDot | fs/nxfs.c:1039-1097 | adds "." or ".." to a directory being set up that has a free slot; that always succeeds and takes no block |
| NxfsPaths.AddDots | fs/nxfs.c:1039-1097 | both dot entries find room in the first block |
| NxfsPaths.DraftDir | fs/nxfs.c:1039-1097 | a new directory gets the lowest free block, and fails exactly when none is free; the block and the slots left are those growing to one block gives |
| NxfsPaths.InitDir | fs/nxfs.c:1039-1097 | a new directory holds exactly "." and ".." |
| NxfsPaths.SetLinks | fs/nxfs.c:1039-1097 | changing a link count changes no node and no block |
| NxfsPaths.MkdirIn | fs/nxfs.c:1039-1097 | setting up a directory and linking it: decided by the first free block and by the room left in the parent without it; where the blocks of both directories and the bitmap end up is determined |
| NxfsPaths.EnterDir | fs/nxfs.c:1076-1090 | linking a directory that is set up, or giving it up together with its block |
| NxfsPaths.MkdirOutcome | fs/nxfs.c:1039-1097 | the same as a condition on the volume before the call, there being only one first free block |
| NxfsPaths.MkdirPath | fs/nxfs.c:1039-1097 | adds a directory holding "." and ".." under the path, as the lowest unused inode, and changes nothing else; succeeds if and only if names and inodes allow it, a block is free, and with the first free block gone the parent still has or can be given room; on failure nothing visible changes, and blocks spill exactly under the stated condition; every other inode keeps its blocks, and bitmap and parent change only as the first block and growing a full parent by eight make them |
| NxfsPaths.DotLeads | fs/nxfs.c:840-888 | where every directory has its dots, a path ending in "." leads to its own parent, and one ending in ".." to the root or to a directory with an entry for that parent |
| NxfsRemove.RemoveNode | fs/nxfs.c:1341-1394 | removes the node and its one entry and clears the bits of its blocks, with every other inode keeping its blocks and every other node its contents; for a directory named by its own ".", clears the bits of its blocks and writes the directory, which is its own parent here, back without its "." |
| NxfsRemove.UnlinkPath | fs/nxfs.c:1341-1363 | succeeds exactly on a file, removes it and its entry and gives its blocks back, while every other inode keeps its blocks; otherwise, and always for "." and "..", changes nothing |
| NxfsRemove.RmdirPath | fs/nxfs.c:1365-1394 | succeeds exactly on a directory other than the root that holds only dots; the invariant holds afterwards if and only if such a directory was not named by its own "."; then it is removed and its blocks are given back, every other inode keeping its blocks; in the one bad case the directory stays in the tree without its ".", and none of its blocks is marked any more; failure changes nothing |
| NxfsRemove.UndoneIsInvalid | fs/nxfs.c:1382-1393 | a directory written back after its blocks were freed holds blocks that are not marked, so ownership is lost |
| NxfsFiles.TruncateInode | fs/nxfs.c:1396-1406 | the file becomes empty, its blocks are given back and nothing else changes; fails exactly on what is not a file; the other inodes keep their blocks |
| NxfsFiles.BlockWindow | fs/nxfs.c:489-519 | the part of a request that falls in a block, or none exactly when it is empty |
| NxfsFiles.WriteBlocks | fs/nxfs.c:1234-1313 | copying block by block stores the buffer at the offset and changes no other byte |
| NxfsFiles.WrittenContent | fs/nxfs.c:1234-1313 | for a file with exactly the blocks its size needs and zeros past its end, the new contents are the old ones zero-padded to the offset and overwritten, and the file stays of that kind |
| NxfsFiles.WriteFileRange | fs/nxfs.c:1234-1313 | a write ending at or below 2^32 - 512 gives the overwritten byte sequence and leaves all other nodes alone; the whole buffer counts as written exactly then; it succeeds if and only if it is to a file and the blocks it needs can be had from the bitmap before; failures change nothing visible; blocks spill exactly when growth fails after taking some; only this file's blocks change, to exactly those growing to the size wanted gives |
| NxfsFiles.WriteLaidOnce | fs/nxfs.c:1234-1313 | whether a write succeeds and where blocks and bitmap end up is determined by the layout before it |
| NxfsFiles.BlocksFor | fs/nxfs.c:1260-1260 | the 32-bit round-up to blocks is exact up to 2^32 - 512 bytes and gives 0 beyond |
| NxfsFiles.GrowAndWrite | fs/nxfs.c:1234-1313 | grows the file and copies the buffer in: the contents are overwritten and no other node changes, or the blocks cannot be had and nothing visible changes |
| NxfsFiles.GrowInode | fs/nxfs.c:1234-1313 | growing the extents of a file in place in the inode table keeps every invariant, and fails exactly when the blocks cannot be had; the blocks taken are those growing takes |
| NxfsFiles.ReadBlocks | fs/nxfs.c:1107-1232 | consecutive blocks read at once |
| NxfsFiles.RunLength | fs/nxfs.c:1107-1232 | the blocks coalesced are consecutive on disk, wholly inside the request and at most 128 |
| NxfsFiles.ReadStep | fs/nxfs.c:1107-1232 | a run or a part of a block delivers the bytes of the file at its position |
| NxfsFiles.ReadRuns | fs/nxfs.c:1107-1232 | run by run, the bytes from the offset to the end of the request |
| NxfsFiles.ReadFileRange | fs/nxfs.c:1107-1232 | returns exactly the slice of the contents from the offset, at most `n` bytes |
| NxfsRun.Mkfs | tools/nxfs_host.c:252-308 | formatting succeeds exactly when the metadata leaves room, establishes the invariant, marks exactly the metadata and root blocks, and yields one empty root directory |
| NxfsRun.DottedAfter | fs/nxfs.c:984-1394 | every operation that does no harm keeps "." leading to the directory itself and ".." to the directory that names it |
| NxfsRun.DoCreate | fs/nxfs.c:984-1037 | creating a file is one step of a run, whatever the path |
| NxfsRun.DoMkdir | fs/nxfs.c:1039-1097 | so is making a directory |
| NxfsRun.DoUnlink | fs/nxfs.c:1341-1363 | so is removing a file |
| NxfsRun.DoRmdir | fs/nxfs.c:1365-1394 | so is removing a directory, also by its own "." |
| NxfsRun.WritePath | fs/nxfs.c:1234-1313 | a write through a path is one step of a run |
| NxfsRun.TruncatePath | fs/nxfs.c:1408-1419 | a truncation through a path is one step of a run and succeeds exactly on a file |
| NxfsRun.Apply | fs/nxfs.c:984-1419 | each operation, with any path, succeeds if and only if a condition on the volume before it holds, then has its own effect on the abstract file system and otherwise none, leaves the bitmap and the blocks of every inode in the one state that follows from those before, and leaves new blocks marked without an owner if and only if another condition holds; it keeps the invariant unless it removes a directory by its own "." |
| NxfsRun.StepKeeps | fs/nxfs.c:1365-1394 | an operation loses the invariant if and only if it removes an empty directory other than the root by its own "." |
| NxfsRun.ApplyAll | fs/nxfs.c:984-1419 | operations one after the other make a run of such steps, up to the first that breaks the invariant; the invariant holds at the end exactly if there was none, and then all were performed |
| NxfsRun.RanStrays | fs/nxfs.c:445-452 | over every run, the marked blocks without an owner are exactly the metadata if and only if no operation so far met the condition for spilling |
| NxfsRun.RanTight | fs/nxfs.c:1234-1406 | over every run whose writes end at or below the largest size, files have exactly the blocks their bytes need and zeros after them |
| NxfsRun.RunFromMkfs | fs/nxfs.c:984-1406 | over every run from a fresh image, with any paths and failures included, until a directory is removed by its own ".": each block in use lies in the data area, is marked and has one owner; the tree stays well formed; each operation succeeds exactly when it can, follows the abstract file system and changes bitmap and blocks in the one way it can; files have exactly the blocks they need if writes end at or below 2^32 - 512; the bitmap marks exactly metadata and owned blocks if and only if no operation met the condition for spilling |
| NxfsRun.SpillExample | fs/nxfs.c:445-452 | on a volume with one free block a write of two blocks fails and leaves that block marked without an owner |
| NxfsRun.RmdirDotExample | fs/nxfs.c:1365-1394 | mkdir "a" and then rmdir "a/." on a fresh image both succeed, and the volume is then broken |
| NxfsRun.WriteThenRead | fs/nxfs.c:1107-1313 | a range write succeeds exactly when it fits, and a range read after it returns the slice of the overwritten contents |
| NxfsAgree.FullCount | fs/nxfs.c:592-612 | a directory with unique names is full exactly if it has as many names as slots, so its names and blocks tell |
| NxfsAgree.CreateLike | fs/nxfs.c:984-1037 | from the same layout and tree, creating a file succeeds alike and leads to the same layout |
| NxfsAgree.MkdirLike | fs/nxfs.c:1039-1097 | so does making a directory |
| NxfsAgree.LaidLike | fs/nxfs.c:984-1419 | the outcome of every operation and the layout it leads to are determined by the layout and tree before it |
| NxfsAgree.AbsLike | fs/nxfs.c:984-1419 | so is the tree it leads to, and so are file contents while writes end at or below 2^32 - 512 |
| NxfsAgree.StepsAgree | fs/nxfs.c:984-1419 | two steps of the same operation from states with the same layout and tree both succeed or both fail and lead to the same layout and tree |
| NxfsAgree.RunsAgree | fs/nxfs.c:984-1419 | two runs of the same operations from such states agree on which operations succeed, and at every moment on bitmap, blocks of every inode, tree and, while writes are bounded, file contents |
| Runs.RanOneMore | fs/nxfs.c:984-1419 | a run continued by a step is a run |
| NxfsCache.CachedVolume.constructor | fs/nxfs_io.c:68-78 | an empty cache is coherent |
| NxfsCache.CachedVolume.DeviceRead | fs/nxfs_io.c:112-162 | the device as the cache sees it: a read delivers its blocks or fails |
| NxfsCache.CachedVolume.DeviceWrite | fs/nxfs_io.c:164-187 | a write stores its blocks, or fails and leaves the blocks it covers in any state |
| NxfsCache.CachedVolume.CacheGet | fs/nxfs_io.c:19-32 | a hit is the lowest-index copy of the block, equals the device and becomes the most recent |
| NxfsCache.CachedVolume.PickVictim | fs/nxfs_io.c:34-58 | the first unused entry, or else the first with the oldest stamp, as long as the clock has not wrapped |
| NxfsCache.CachedVolume.CachePut | fs/nxfs_io.c:34-58 | the victim becomes a copy of the block, even if there is one already, and the cache stays coherent |
| NxfsCache.CachedVolume.CacheUpdate | fs/nxfs_io.c:60-66 | refreshes the first copy and no other; the cache is then coherent with the new device contents, because every stale copy is older than the first |
| NxfsCache.EvictKeeps | fs/nxfs_io.c:34-58 | evicting the oldest entry never leaves a stale copy as the first one |
| NxfsCache.PutKeeps | fs/nxfs_io.c:34-58 | evicting and filling keep the invariant on duplicates |
| NxfsCache.CachedVolume.InvalidateAll | fs/nxfs_io.c:68-78 | no copy is left, and the clock starts over |
| NxfsCache.CachedVolume.MarkWriteFailed | fs/nxfs_io.c:80-87 | a failed write empties the cache and is remembered |
| NxfsCache.CachedVolume.Flush | fs/nxfs_io.c:89-110 | refuses after a failed write; success means nothing is dirty |
| NxfsCache.CachedVolume.ReadBlock | fs/nxfs_io.c:112-128 | a successful read returns what the device holds, a reliable device never fails in range, and the clock advances by at most one |
| NxfsCache.CachedVolume.ReadBlocks | fs/nxfs_io.c:130-162 | a run served partly from the cache and partly from the device is what the device holds, although every block is then cached again |
| NxfsCache.CachedVolume.WriteBlock | fs/nxfs_io.c:164-187 | success stores exactly that block; after a failed write every further one is refused |
| NxfsCache.CachedVolume.ReadPart | fs/nxfs_io.c:189-234 | one block's share of a byte read |
| NxfsCache.CachedVolume.ReadBytes | fs/nxfs_io.c:189-234 | bytes read at any offset are the device's bytes and lie inside it; the clock advances by at most sixteen for each block touched |
| NxfsCache.CachedVolume.LoadForWrite | fs/nxfs_io.c:236-304 | the blocks a byte write covers, as the device holds them |
| NxfsCache.CachedVolume.UpdateAhead | fs/nxfs_io.c:236-304 | a first copy refreshed before the transfer matches the device as it is about to be |
| NxfsCache.CachedVolume.PatchOne | fs/nxfs_io.c:236-304 | one block of the copy loop |
| NxfsCache.CachedVolume.PatchAndUpdate | fs/nxfs_io.c:236-304 | all blocks patched and the cache coherent with the device after the coming transfer |
| NxfsCache.CachedVolume.WriteBatch | fs/nxfs_io.c:236-304 | one transfer writes exactly the source bytes; failure touches only the blocks of the transfer; requests of at most sixteen blocks inside a reliable device succeed |
| NxfsCache.CachedVolume.WriteMore | fs/nxfs_io.c:306-334 | one batch of a byte write: the bytes so far are in place, no block outside the request has changed, and the clock has advanced by at most two for each block touched |
| NxfsCache.CachedVolume.WriteBytes | fs/nxfs_io.c:306-334 | writes exactly the given bytes at any offset; whether it succeeds or fails, no block outside the request changes; a reliable device serves every request in range |
| NxfsCache.RunAll | fs/nxfs_io.c:112-334 | for as long as the costs of the operations so far, each computed from the operation alone, sum to at most 2^32 - 2, every step through the cache is a step of the device alone: reads deliver what it holds, successful writes store exactly their data, failed ones touch no block outside the request, and a reliable device serves every request in range as long as no write or flush has failed |
| NxfsCache.RawIsExact | fs/nxfs_io.c:112-334 | on a reliable device such a step is determined: one answer, one new content |
| NxfsCache.RunClient | fs/nxfs_io.c:112-334 | no client that stays in range, choosing each request from all answers so far, can tell the cache from the device: same answers, same final contents |
| FuseAlloc.FirstUsed | NXFS/nxfs.c:225-252 | the first block in use in a window, all blocks before it being free |
| FuseAlloc.MarkRun | NXFS/nxfs.c:128-134 | sets or clears exactly a run of bits in the one bitmap block |
| FuseAlloc.AllocRun | NXFS/nxfs.c:225-252 | although the scan skips ahead, it returns the lowest free run of `len` data blocks and fails only if none exists |
| FuseAlloc.FreeRunOf | NXFS/nxfs.c:254-264 | clears exactly the bits of the run |
| FuseAlloc.FreeExtents | NXFS/nxfs.c:172-175 | clears exactly the bits of all extents |
| FuseAlloc.AppendExtentSlot | NXFS/nxfs.c:160-170 | appends the run to the block map; fails exactly when all slots are taken; the run goes into the first empty slot |
| FuseAlloc.AllocLongest | NXFS/nxfs.c:266-310 | counting the length down finds the longest free run, at most what is wanted; none exactly when no data block is free |
| FuseAlloc.GrowOnce | NXFS/nxfs.c:266-310 | one pass of the loop: the longest free run becomes marked, zeroed and a new extent; fails exactly when no data block is free or no slot is empty, and then nothing is marked |
| FuseAlloc.GrowKeepsHope | NXFS/nxfs.c:266-310 | taking the longest run keeps the chance of reaching the goal what it was |
| FuseAlloc.OneFits | NXFS/nxfs.c:266-310 | one more block fits exactly when a data block is free and a slot is empty |
| FuseAlloc.Rollback | NXFS/nxfs.c:266-310 | freeing what was taken restores the bitmap and no block in use was written |
| FuseAlloc.EnsureBlocks | NXFS/nxfs.c:266-310 | all or nothing: success grows to max(old, need) with the old map as a prefix; failure leaves bitmap and inode as they were; although it always takes the longest run, it succeeds if and only if some choice of at most as many free runs as there are empty slots holds the missing blocks; the extents it leads to are those of taking the lowest of the longest free runs again and again |
| FuseAlloc.FilledOnce | NXFS/nxfs.c:266-310 | bitmap and extents determine the extents growing leads to |
| FuseAlloc.FindCut | NXFS/nxfs.c:312-342 | the extent that logical block `keep` falls in |
| FuseAlloc.FreeTail | NXFS/nxfs.c:312-342 | frees the rest of an extent and all later ones |
| FuseAlloc.ShrinkBlocks | NXFS/nxfs.c:312-342 | keeps the first `keep` logical blocks in place and clears exactly the bits of the others; the extents left are the ones cut at that block |
| FuseAlloc.CutOnce | NXFS/nxfs.c:312-342 | there is one place to cut |
| FuseOps.ConservedGrow | NXFS/nxfs.c:266-310 | taking blocks for an inode keeps "marked" equal to "metadata or owned" |
| FuseOps.ConservedDrop | NXFS/nxfs.c:312-342 | giving blocks up keeps "marked" equal to "metadata or owned" |
| FuseOps.FindFreeSlot | NXFS/nxfs.c:366-388 | the first free slot, or the first of one new block; fails exactly when no slot is free and no data block or no extent slot is left, and then rolls back; the directory's extents change only as growing by one block makes them, and only if it was full |
| FuseOps.PrepareEntry | NXFS/nxfs.c:409-431 | a slot with everything the insertion needs |
| FuseOps.AddEntry | NXFS/nxfs.c:409-431 | adds the entry and conserves blocks; succeeds exactly when the directory has a free slot or can grow by a block; failure leaves every inode, block in use and bitmap bit as it was; the directory's extents change only as growing by one block makes them, and only if it was full |
| FuseOps.DiscardDraft | NXFS/nxfs.c:821-869 | undoing a half-made inode restores the file system and conserves blocks |
| FuseOps.PublishDraft | NXFS/nxfs.c:723-755 | linking a prepared inode into its parent conserves blocks and succeeds exactly when the parent has room or can grow |
| FuseOps.PrepareNode | NXFS/nxfs.c:723-755 | the checks before a creation, dots as last component refused; they pass exactly when the path can be created as far as names and inodes go |
| NxfsPaths.NamesExist | NXFS/nxfs.c:723-755 | a path that leads nowhere has a last name that is not in its directory, so no duplicate is added |
| FuseOps.CreateFile | NXFS/nxfs.c:723-755 | adds an empty file; succeeds if and only if names and inodes allow it and the parent has a free slot or can grow by a block; otherwise nothing changes; blocks are conserved either way; the file is the lowest unused inode, every other inode keeps its extents, and the parent's change only if it was full, by one block |
| FuseOps.CreateFileIn | NXFS/nxfs.c:723-755 | writing a new inode and linking it into its parent, or undoing it |
| FuseLayout.NewEntryOnce | NXFS/nxfs.c:366-388 | which extents a new inode and its entry lead to is determined |
| FuseOps.AddDotEntry | NXFS/nxfs.c:545-550 | a dot entry in a directory with a free slot always succeeds and takes no block |
| FuseOps.FirstBlock | NXFS/nxfs.c:266-310 | the first block of an empty extent array is the lowest free one, and fails exactly when none is free |
| FuseOps.AddDots | NXFS/nxfs.c:545-550 | a new directory holds exactly "." and ".." |
| FuseOps.DraftDir | NXFS/nxfs.c:821-869 | the new directory's first block, or failure exactly because no block is free |
| FuseOps.MakeDir | NXFS/nxfs.c:821-869 | adds a directory; succeeds if and only if names and inodes allow it, a block is free, and with the first free block gone the parent still has room or can grow; otherwise nothing changes; blocks are conserved either way; the directory is the lowest unused inode and holds the lowest free block, every other inode keeps its extents, and the parent's change only if it was full, by one block |
| FuseOps.MakeDirIn | NXFS/nxfs.c:821-869 | setting up a directory and linking it, decided by the first free block and the room left without it |
| FuseOps.EnterDir | NXFS/nxfs.c:856-868 | linking a directory that is set up, or giving it up together with its block |
| FuseOps.DirOutcome | NXFS/nxfs.c:821-869 | the same as a condition on the volume before the call |
| FuseOps.FreeInode | NXFS/nxfs.c:796-819 | frees an inode's blocks and clears it, conserving blocks |
| FuseOps.RemoveInode | NXFS/nxfs.c:796-819 | removes a node and its one entry, conserving blocks; every other inode keeps its extents |
| FuseOps.UnlinkFile | NXFS/nxfs.c:796-819 | succeeds exactly on a file named by an ordinary last component; every other inode keeps its extents |
| FuseOps.HoldsOnlyDots | NXFS/nxfs.c:390-407 | scanning every slot decides exactly whether only dots are left |
| FuseOps.RemoveDir | NXFS/nxfs.c:871-903 | succeeds exactly on an empty directory named by an ordinary last component; every other inode keeps its extents |
| FuseFiles.DistinctBound | NXFS/nxfs.c:266-310 | distinct blocks of a volume are no more than it has, so sizes stay far below 32 bits |
| FuseFiles.NeedWraps | NXFS/nxfs.c:766-767 | the cast of the block count to 32 bits sees the size modulo 2^41 only: it is exact for a remainder up to 2^41 - 512 and gives 0 beyond |
| FuseFiles.WriteInode | NXFS/nxfs.c:675-721 | for every 64-bit offset and length: succeeds if and only if the blocks the 32-bit count asks for fit in free runs and empty slots, and otherwise changes nothing; blocks are conserved; the file becomes its old contents overwritten if and only if the write ends at or below 2^41 - 512; its extents are those growing gives |
| FuseFiles.WriteFile | NXFS/nxfs.c:675-721 | the same through a path: an empty buffer always succeeds, any other exactly on a file whose growth fits |
| FuseFiles.WriteStored | NXFS/nxfs.c:675-721 | whatever size is recorded, growing and copying keep ownership and account; the contents are right exactly if the end was not too large |
| FuseFiles.ResizeBlocks | NXFS/nxfs.c:757-794 | the file gets exactly `need` blocks, keeps the bytes they hold, and blocks are conserved; fails exactly when growth does not fit; the extents are those growing or cutting gives |
| FuseFiles.ClearTail | NXFS/nxfs.c:757-794 | the bytes after the new end in its last block become zero and no other byte changes, as far as the block count tells where the end is |
| FuseFiles.TruncatedContent | NXFS/nxfs.c:757-794 | the contents become the old ones cut or zero-padded to the new size |
| FuseFiles.SetSize | NXFS/nxfs.c:757-794 | clearing the tail and writing the inode completes the truncation |
| FuseFiles.TruncateFile | NXFS/nxfs.c:757-794 | truncation to any size that can be rounded up: succeeds if and only if it is a file and the growth the 32-bit count asks for, if any, fits; otherwise nothing changes; blocks are conserved; the byte sequence is resized to the size modulo 2^41 when that is at most 2^41 - 512, and otherwise the file has no blocks and a wrong size |
| FuseFiles.TruncatedRight | NXFS/nxfs.c:757-794 | that is the size asked for if and only if it is at most 2^41 - 512 |
| FuseFiles.TruncatedToNothing | NXFS/nxfs.c:757-794 | truncating any file to 2^41 bytes succeeds and empties it |
| FuseRun.Mkfs | NXFS/nxfs.c:1020-1051 | a fresh image satisfies every invariant, conservation included |
| FuseRun.Apply | NXFS/nxfs.c:675-903 | each operation keeps the invariant, conservation included; it succeeds if and only if a condition on the volume before it holds, then has its own effect on the abstract file system, and otherwise none; the extents of every inode are then the ones that follow from those before |
| FuseRun.DoCreate | NXFS/nxfs.c:723-755 | creating a file is one step of a run |
| FuseRun.DoMkdir | NXFS/nxfs.c:821-869 | so is making a directory |
| FuseRun.RanTight | NXFS/nxfs.c:675-794 | over every run that asks for no size above 2^41 - 512, every file has exactly the blocks its bytes need |
| FuseRun.RunFromMkfs | NXFS/nxfs.c:675-903 | over every run from a fresh image, operations that fail for lack of space included: the bitmap marks exactly the metadata blocks and the disjoint union of all extents; each operation succeeds exactly when it can, follows the abstract file system and leads to the extents it must; files have exactly the blocks they need if no size above 2^41 - 512 was asked for |
| FuseAgree.BitsLike | NXFS/nxfs.c:128-134 | with every block accounted for, the extents determine the bitmap |
| FuseAgree.SucceedsLike | NXFS/nxfs.c:675-903 | whether an operation succeeds is determined by extents and tree |
| FuseAgree.SketchedLike | NXFS/nxfs.c:675-903 | so are the extents it leads to |
| FuseAgree.AbsLike | NXFS/nxfs.c:675-903 | so is the tree, and so are file contents while no size above 2^41 - 512 is asked for |
| FuseAgree.StepsAgree | NXFS/nxfs.c:675-903 | two steps of the same operation from states with the same extents and tree both succeed or both fail and lead to the same extents and tree |
| FuseAgree.RunsAgree | NXFS/nxfs.c:675-903 | two runs of the same operations from such states agree on which operations succeed, and at every moment on the extents of every inode, the tree and, within that bound, the file contents |
| BlockRegistry.BlockLayer.constructor | block/blockdev.c:622-636 | an empty registry is well formed |
| BlockRegistry.BlockLayer.IndexOf | block/blockdev.c:835-850 | the slot of a device, found exactly when it is registered |
| BlockRegistry.BlockLayer.FindRoom | block/blockdev.c:806-819 | the first empty slot, or the next one |
| BlockRegistry.BlockLayer.IoBegin | block/blockdev.c:211-239 | takes a reference exactly on a registered, usable device, and tells an unpublished device from a refused one |
| BlockRegistry.BlockLayer.AcquireAt | block/blockdev.c:922-937 | takes a reference on the device in a slot exactly when it is not being removed and, unless it is only to be reported on, on line |
| BlockRegistry.BlockLayer.IoEnd | block/blockdev.c:317-326 | drops one reference |
| BlockRegistry.BlockLayer.PublishDevice | block/blockdev.c:799-833 | puts the device in the first empty slot unless it has one, and fails exactly when all are taken |
| BlockRegistry.PublishKeeps | block/blockdev.c:799-833 | publishing keeps every device in at most one slot and registers that device alone |
| BlockRegistry.BlockLayer.RemoveDevice | block/blockdev.c:879-906 | takes the device out of its slot and drops trailing empty slots |
| BlockRegistry.RemoveKeeps | block/blockdev.c:879-906 | removal keeps the table well formed and unregisters that device alone |
| BlockRegistry.BlockLayer.BeginReset | block/blockdev.c:700-727 | takes a reference and marks the device as recovering exactly when it is on line and has a reset |
| BlockRegistry.BlockLayer.EndReset | block/blockdev.c:737-744 | a reset ends with the device usable exactly if it succeeded or the device is protected, unless it is being removed, when nothing changes; references, protection and the mark for removal are kept, and every other device and slot |
| BlockRegistry.ResetRoundTrip | block/blockdev.c:700-746 | a whole reset, its reference released, leaves no trace if it succeeds, and takes an unprotected device off line and nothing else if it fails |
| BlockRegistry.BlockLayer.ChangeState | block/blockdev.c:650-671 | a protected device cannot be taken off line; marking it as removing sticks otherwise |
| BlockRegistry.BlockLayer.Protect | block/blockdev.c:673-686 | a protected device is never down, and one that was down is usable again; references are kept, and every other device and slot; a device that was not down keeps state and mark for removal |
| BlockRegistry.BlockLayer.StartRemoval | block/blockdev.c:835-862 | marks a registered, unprotected device as being removed |
| BlockRemoval.DeviceStep | block/blockdev.c:211-239 | a section that changes one device and one thread keeps references equal to holders |
| BlockRemoval.StepSafe | block/blockdev.c:211-972 | every lock-held section keeps the invariant: no device leaves the registry while held, none gains a reference while being removed, none is in two slots; unregistrations of one device may overlap freely |
| BlockRemoval.RunSafe | block/blockdev.c:211-972 | the same over every interleaving of any number of threads |
| BlockRemoval.ProtectionRuleNeeded | block/blockdev.c:673-686 | from the start state, one switch to protection between check and removal in an otherwise obedient run lets a held device be removed |
| BlockRemoval.RegisterRuleNeeded | block/blockdev.c:748-907 | from the start state, one registration during an unregistration of the same device in an otherwise obedient run lets a held device be removed |
| BlockRemoval.SecondRegisterRuleNeeded | block/blockdev.c:748-833 | from the start state, one registration during another of the same device in an otherwise obedient run lets a held device be removed |
| BlockRemoval.ReachesChecked | block/blockdev.c:748-907 | an obedient run leads from the start to a thread about to remove a device, all others idle |
| BlockRemoval.RunUp | block/blockdev.c:650-686 | in every run a protected device that starts neither off line nor in removal never is |
| BlockQueue.MergedSector | block/blockdev.c:88-122 | sector `k` of the second request is sector `count + k` of the merged one, on disk and in memory, wrap-around included |
| BlockQueue.MergedTransfers | block/blockdev.c:160-177 | the merged transfer is the first followed by the second |
| BlockQueue.MergeKeepsMeaning | block/blockdev.c:160-177 | for any memory and disks the merged request does what the two do, provided the counts sum below 2^32 |
| BlockQueue.OverflowLosesWrite | block/blockdev.c:160-177 | two writes whose counts sum to 2^32 or more merge into one that leaves the last sector unwritten |
| BlockQueue.OverflowLosesRead | block/blockdev.c:160-177 | two reads whose counts sum to 2^32 or more merge into one that does not deliver the last sector |
| BlockQueue.MergeExact | block/blockdev.c:88-177 | for any two 32-bit counts, merging keeps the meaning if and only if their sum is below 2^32 |
| BlockQueue.MergedQueue | block/blockdev.c:160-177 | merging into the last entry keeps the queue equivalent to the submissions |
| BlockQueue.StandsForNext | block/blockdev.c:88-177 | a merged request ends, on disk and in memory, where the last request merged into it ends, wrap-around of addresses included, so the same requests continue both |
| BlockQueue.RequestQueue.MergeLast | block/blockdev.c:160-177 | lengthening the last queued request keeps the queue equivalent to the submissions |
| BlockQueue.RequestQueue.Append | block/blockdev.c:160-177 | so does queueing a request by itself |
| BlockQueue.RequestQueue.constructor | block/blockdev.c:83-86 | an empty queue stands for no submissions |
| BlockQueue.RequestQueue.Run | block/blockdev.c:124-133 | one transfer, sector by sector, and then the callback |
| BlockQueue.RequestQueue.Drain | block/blockdev.c:135-158 | draining has the effect of running the pending submissions in order and empties the queue |
| BlockQueue.RequestQueue.Submit | block/blockdev.c:160-177 | depth never exceeds eight; the queue stays equivalent to the pending submissions, or was drained first; only the run of requests that continue one another up to this one must stay below 2^32 sectors |
| BlockQueue.CallsOnce | block/blockdev.c:124-133 | every request with a callback is completed exactly once, in order |
| BlockQueue.Apply | block/blockdev.c:1320-1376 | one submission or flush: nothing pending is lost, run twice or put out of order |
| BlockQueue.RunOps | block/blockdev.c:1320-1376 | for any list of submissions and flushes in which no run of requests that continue one another exceeds 2^32 - 1 sectors: at every flush and at the end the effect on disks, memory and callbacks is that of running each request so far once, in order |
| BlockReadCache.BlockLayer.constructor | block/blockdev.c:622-636 | an empty cache is coherent |
| BlockReadCache.BlockLayer.DeviceRead | block/blockdev.c:1190-1193 | the driver delivers the sectors or fails |
| BlockReadCache.BlockLayer.DeviceWrite | block/blockdev.c:1249-1252 | the driver stores the sectors, or fails and leaves those of the transfer in any state |
| BlockReadCache.BlockLayer.ReadCached | block/blockdev.c:1162-1184 | the leading sectors the cache holds are the device's |
| BlockReadCache.BlockLayer.Fill | block/blockdev.c:1199-1211 | every entry changed holds a sector of this read, the last sector is then cached, and the cache stays coherent, collisions inside one read included |
| BlockReadCache.TouchedBounds | block/blockdev.c:349-366 | a range that does not wrap around covers exactly the interval the code tests |
| BlockReadCache.BlockLayer.InvalidateRange | block/blockdev.c:349-366 | drops exactly the entries of the range, or all of the device when the range wraps around, which makes the cache coherent again |
| BlockReadCache.BlockLayer.Read | block/blockdev.c:1148-1220 | a successful read is what the device holds, cached or not, and it succeeds whenever the driver does; the cache stays coherent after failures |
| BlockReadCache.BlockLayer.Write | block/blockdev.c:1222-1283 | writes through, changes only its own sectors and leaves the cache coherent, failures included |
| BlockReadCache.BlockLayer.Unregister | block/blockdev.c:341-347 | drops exactly the device's entries, so another device may take its address without any stale sector being served |
| BlockReadCache.Apply | block/blockdev.c:1148-1283 | each operation through the cache is one the devices alone allow |
| BlockReadCache.RunAll | block/blockdev.c:1148-1283 | every sequential run of reads, writes and removals through the cache is one of the raw devices |
| FatTable.Mount | fs/fat32.c:8-85 | a boot sector is accepted if and only if its header is that of a FAT32 volume and the layout it describes is complete and lies inside the device and below 2^32; the result is that layout, sound exactly when it keeps to the cluster limit of FAT32 |
| FatTable.OneLayout | fs/fat32.c:8-85 | a boot sector describes one layout only: the tables and as many whole clusters as still fit |
| FatTable.LayoutIs | fs/fat32.c:8-85 | there is a complete layout exactly when the fields pass the checks |
| FatTable.LbaInVolume | fs/fat32_core.c:180-182 | every sector of a data cluster lies in the data region of the volume, so no 32-bit sum wraps |
| FatTable.LbaApart | fs/fat32_core.c:180-182 | different clusters share no sector |
| FatTable.FatVolume.constructor | fs/fat32.c:8-85 | a fresh volume has no cached sector |
| FatTable.FatVolume.WriteSector | fs/fat32_core.c:163-174 | writes exactly that sector, refuses sectors outside the volume and keeps the sector cache right |
| FatTable.FatVolume.NextCluster | fs/fat32_core.c:184-209 | despite the sector cache it returns the entry of the first table on disk, and fails exactly on a bad cluster or entry |
| FatTable.EntryStep | fs/fat32_core.c:250-278 | rewriting the sector of one copy changes one entry of that copy |
| FatTable.EntryWrittenFat | fs/fat32_core.c:250-278 | writing all copies changes one entry, keeps the top four bits of every copy and keeps the copies equal |
| FatTable.FatVolume.WriteFatEntry | fs/fat32_core.c:250-278 | changes exactly that entry in every copy, and fails exactly on a bad cluster or value |
| FatTable.FatVolume.ZeroCluster | fs/fat32_core.c:280-294 | the cluster's sectors become zero and nothing else changes |
| FatTable.FatVolume.AllocCluster | fs/fat32_core.c:296-319 | takes the lowest free cluster, marks it as an end, clears it and changes nothing else; fails only when no entry before the first bad one is zero |
| FatChains.ForestAlloc | fs/fat32_core.c:296-319 | allocation adds a chain of one cluster that no other chain contains |
| FatChains.ForestAppend | fs/fat32_dir.c:348-368 | appending extends one chain and leaves the others disjoint, acyclic and terminated |
| FatChains.FreeFrom | fs/fat32_dir.c:587-611 | on any table whatever, freeing takes at most one iteration more than there are data clusters in use |
| FatChains.FreeChainFrom | fs/fat32_dir.c:587-611 | from the head of a chain exactly that chain is cleared, in as many iterations as it has clusters |
| FatChains.ForestFree | fs/fat32_dir.c:587-611 | clearing a chain leaves the other chains as they were |
| FatChains.FreeOne | fs/fat32_dir.c:587-611 | one iteration: read an entry and clear it |
| FatChains.FreeClusterChain | fs/fat32_dir.c:587-611 | terminates on corrupt and cyclic tables, with result and iteration count as specified |
| FatChains.FreeChain | fs/fat32_dir.c:587-611 | on a sound volume it succeeds and removes exactly that chain and gives exactly its clusters back |
| FatChains.FullForest | fs/fat32_core.c:296-319 | on a sound volume allocation fails only when every cluster is in use |
| FatChains.ForestCounts | fs/fat32_core.c:296-319 | the clusters in use are exactly as many as the chains have together |
| FatChains.AppendFileCluster | fs/fat32_dir.c:348-368 | the chain grows by one cleared cluster, the volume stays sound and one cluster fewer is free; fails exactly when none is free, and then nothing changes |
| FatChains.AppendDirectoryCluster | fs/fat32_dir.c:308-346 | walks to the end of the chain and appends there |
| FatFiles.PathExists | fs/fat32_file.c:71-215 | from any cluster of any table there is a path that is stuck or as long as wanted, so reading is specified for damaged tables too |
| FatFiles.SectorsIn | fs/fat32_file.c:71-215 | every sector of a file lies in the mounted data region |
| FatFiles.ReadSectors | fs/fat32_core.c:142-161 | delivers the sectors, and refuses exactly what is empty or outside the volume |
| FatFiles.NextOnPath | fs/fat32_file.c:202-210 | the table leads on exactly when the path does |
| FatFiles.SkipClusters | fs/fat32_file.c:95-106 | the cluster an offset falls in, or failure exactly when the path ends before it |
| FatFiles.ReadFull | fs/fat32_file.c:166-184 | whole sectors of a cluster are the file's bytes at that position |
| FatFiles.ReadPart | fs/fat32_file.c:117-131 | part of a sector is the file's bytes at that position |
| FatFiles.ReadRest | fs/fat32_file.c:166-199 | the rest of a cluster: whole sectors, then part of one |
| FatFiles.ReadInside | fs/fat32_file.c:112-199 | the rest of a cluster from any byte |
| FatFiles.ScanRun | fs/fat32_file.c:133-150 | the clusters coalesced are consecutive on disk and on the path, and no more than allowed |
| FatFiles.FindRun | fs/fat32_file.c:133-150 | the run lies wholly inside the request |
| FatFiles.ReadRun | fs/fat32_file.c:151-163 | a run of clusters read at once is the file's bytes at that position |
| FatFiles.ReadPiece | fs/fat32_file.c:112-199 | one pass of the loop delivers the right bytes and ends at a cluster boundary or at the end of the request |
| FatFiles.ReadOn | fs/fat32_file.c:112-211 | piece by piece the whole request, or failure exactly when the path is too short |
| FatFiles.ReadFileRange | fs/fat32_file.c:71-215 | on any table the coalescing read returns min(size - offset, n) bytes equal to looking every byte up through the path, and fails exactly when the path is too short or the request is bad |
| FatWrite.SectorsDistinct | fs/fat32_file.c:245-345 | a chain's sectors are pairwise different |
| FatWrite.SectorsApart | fs/fat32_file.c:245-345 | chains that share no cluster share no sector |
| FatWrite.SectorWindow | fs/fat32_core.c:219-248 | the part of a request between a sector's start and a given end, or none exactly when it is empty |
| FatWrite.WindowsRight | fs/fat32_file.c:279-303 | with the end of a sector computed in 32 bits, every window of a request is the part that falls in its sector if and only if the request ends at or below 2^32 - 512 |
| FatWrite.CopiedFirst | fs/fat32_file.c:279-303 | while positions have not wrapped, the windows copy the request up to the last sector, and none of the last sector |
| FatWrite.CopiedNothing | fs/fat32_file.c:279-303 | a request that starts in the last sector copies nothing, however many sectors are visited |
| FatWrite.PatchSector | fs/fat32_file.c:279-303 | a sector gets exactly the bytes of the request that the 32-bit window covers, and those are its own |
| FatWrite.WriteWindow | fs/fat32_file.c:279-303 | writes the part of the request that the window of one sector covers and no other byte, for every end below 2^32 |
| FatWrite.WriteCluster | fs/fat32_file.c:277-304 | the same for the sectors of a cluster; it stops early only where the position has passed the end |
| FatWrite.GrowFile | fs/fat32_file.c:317-322 | appending a cluster while writing keeps bytes, chains and other files |
| FatWrite.WriteHere | fs/fat32_file.c:275-304 | the cluster's share of the write, with the table untouched |
| FatWrite.Advance | fs/fat32_file.c:308-333 | moves to the next cluster of the chain, appending one exactly at its end |
| FatWrite.WriteOn | fs/fat32_file.c:274-334 | cluster by cluster; succeeds if and only if the windows of the clusters the chain has and the volume has free copy the whole buffer; the chain grows to exactly the least number of clusters that do, or by every free cluster; the bytes copied are in place and every other byte is as it was |
| FatWrite.WriteNext | fs/fat32_file.c:274-334 | one pass of the loop: done exactly when so many clusters are enough |
| FatWrite.EnoughIsNeeded | fs/fat32_file.c:274-334 | for a request that ends at or below 2^32 - 512 that is when the clusters hold its end |
| FatWrite.EnoughIsMore | fs/fat32_file.c:274-334 | one that ends above it is not done before positions have wrapped, and never if it starts in the last sector |
| FatWrite.ReachesEnd | fs/fat32_file.c:305-307 | so many clusters hold so many bytes exactly if no more are needed |
| FatNames.PopulatePart | fs/fat32_dir.c:385-423 | an entry holds its order, the flag on the last part, the checksum and its 13 characters, terminator and padding included |
| FatNames.OnePart | fs/fat32_dir.c:385-423 | that determines the entry |
| FatNames.AppendChar | fs/fat32_name.c:170-194 | stores one character, and refuses exactly the last byte of the buffer and beyond |
| FatNames.Capture | fs/fat32_name.c:196-245 | gathers an entry exactly when it fits what was gathered before, and otherwise starts over |
| FatNames.CapturePart | fs/fat32_name.c:196-245 | capturing part `n` of a name adds its 13 characters |
| FatNames.NameRoundTrip | fs/fat32_name.c:196-245 | for every name of 1 to 247 bytes the entries written are captured back to exactly that name with its checksum, whatever was gathered before |
| FatNames.LongNameLost | fs/fat32_name.c:170-194 | names of 248 to 260 bytes are lost, so 247 is the exact limit |
| FatDirs.FindAfterCreate | fs/fat32_dir.c:91-158 | in a directory where the name was not found, looking it up after its entries were written returns exactly that entry under exactly that name |
| FatDirs.RewrittenLive | fs/fat32_dir.c:91-158 | rewriting entries that end in a free or short one disturbs no other file, nor the long name gathered for it |
| FatDirs.FindIsFirst | fs/fat32_dir.c:91-158 | in a well-formed directory a lookup returns the first file that answers to the name, and fails exactly if none does |
| FatDirs.FindKept | fs/fat32_dir.c:91-158 | changing one entry changes only the lookups that lead or led to it |
| FatAlias.DigitsValue | fs/fat32_name.c:370-373 | the decimal text of a serial number determines it |
| FatAlias.AliasesDistinct | fs/fat32_name.c:316-393 | the aliases of a name for different serial numbers are different, because the digits follow the last tilde |
| FatAlias.SerialFits | fs/fat32_name.c:370-388 | serial numbers below one million fit the eight columns with at least one character of the stem |
| FatAlias.FitsShortExact | fs/fat32_name.c:114-148 | holds exactly for one to eight allowed characters with an optional period and up to three more |
| FatAlias.Normalize | fs/fat32_name.c:84-112 | base and extension, sanitized and padded |
| FatAlias.ShortNameRoundTrip | fs/fat32_name.c:20-32 | an upper-case 8.3 name is read back from its short entry exactly when it does not end in a period |
| FatAlias.FindLastDot | fs/fat32_name.c:329-334 | the last period of a name |
| FatAlias.TakeSanitized | fs/fat32_name.c:335-342 | the first few characters, each made fit for a short name |
| FatAlias.StemAndExtension | fs/fat32_name.c:329-369 | the stem and extension of an alias |
| FatAlias.ReversedDigits | fs/fat32_name.c:370-373 | the digits of the serial number, last one first |
| FatAlias.FillColumns | fs/fat32_name.c:375-389 | the stem cut to leave room, a tilde and the digits in order |
| FatAlias.MakeShortAlias | fs/fat32_name.c:316-393 | the name itself for serial 0 if it is short already, a numbered alias otherwise |
| FatAlias.AliasSafe | fs/fat32_name.c:316-393 | an alias never looks like an end mark or a deleted entry |
| FatAlias.AliasNoPeriod | fs/fat32_name.c:316-393 | no short name that is chosen holds a period |
| FatAlias.NameNeedsLong | fs/fat32_dir.c:169-182 | whether a name takes long entries |
| FatEntries.FindEntry | fs/fat32_dir.c:91-158 | the scan with its gathered state returns the first entry whose long or short name matches, or none |
| FatEntries.ShortNameExists | fs/fat32_dir.c:190-240 | holds exactly when a live entry before the end mark has those eleven bytes |
| FatEntries.Pigeonhole | fs/fat32_dir.c:242-253 | distinct names that all occur in a list are no more than the list has |
| FatEntries.BuildUniqueShortName | fs/fat32_dir.c:242-253 | the alias with the first serial number that is not in the directory; fails exactly when every serial number is taken, which needs at least 999999 short names |
| FatEntries.LocateFreeSpan | fs/fat32_dir.c:255-306 | the first free entries in a row, or a proof that there are none |
| FatEntries.NoEndBefore | fs/fat32_dir.c:255-306 | in a well-formed directory no end mark comes before the room found |
| FatEntries.CreateKeepsForm | fs/fat32_dir.c:430-500 | writing the entries keeps the directory well formed |
| FatEntries.ShortEntryFields | fs/fat32_dir.c:425-428 | name, attributes and first cluster are read back from a new short entry, and its size is zero |
| FatEntries.WithFieldsAre | fs/fat32_name.c:3-18 | rewriting attributes, first cluster and size of an entry reads back exactly those and keeps its name and times |
| FatEntries.FreshIsEmpty | fs/fat32_dir.c:561-585 | a new directory is well formed and holds nothing but its dot entries |
| FatEntries.ShortGetsItself | fs/fat32_dir.c:430-500 | a short upper-case name that was not found is not taken as an alias either |
| FatCreate.ReadDirectory | fs/fat32_dir.c:91-158 | walking clusters and sectors yields the raw entries in order |
| FatCreate.RawEntryPosition | fs/fat32_dir.c:502-531 | the sector and offset of a raw entry, and failure exactly past the end |
| FatCreate.WriteEntryAt | fs/fat32_dir.c:370-383 | writing a raw entry changes that entry of the directory and no other sector |
| FatCreate.WriteEntries | fs/fat32_dir.c:474-484 | a row of entries is written in place, across sectors and clusters |
| FatCreate.MakeParts | fs/fat32_dir.c:474-481 | the entries of a name, last part first |
| FatCreate.FindRoom | fs/fat32_dir.c:461-467 | room in the directory as it is or grown by one cluster, without changing what is found in it; fails exactly when there is no room and either no cluster is free or one would not be enough; how many clusters the directory then has and what its entries are is stated exactly |
| FatCreate.MakeEntries | fs/fat32_dir.c:468-484 | the parts of a name, if it takes any, and its short entry |
| FatCreate.WriteNewEntry | fs/fat32_dir.c:468-484 | the parts of a name and its short entry are written at that place, and nothing else |
| FatCreate.ChooseName | fs/fat32_dir.c:430-460 | an unused short name, exactly when the name is new and not too long and some alias of it is unused; it is the alias with the first unused serial number |
| FatCreate.NewEntryWritten | fs/fat32_dir.c:430-500 | what the entries written mean for the directory and its lookups |
| FatCreate.NewEntryFound | fs/fat32_dir.c:91-158 | looking the new name up finds the new entry if and only if it is a long name of at most 247 bytes, or a short one that does not end in a period or that abandoned long-name entries before it happen to spell; otherwise it finds nothing |
| FatCreate.CreateEntry | fs/fat32_dir.c:430-500 | on disk, across sectors and clusters: a new name gets an unused short name and its entries; looking it up afterwards finds the new entry or, exactly in the cases stated, nothing; all other files keep their entries and names, chains stay sound, only the directory's sectors change; it succeeds if and only if the name is new and not too long, an alias is unused, and there is room or a cluster that makes room; the free clusters, the directory's clusters and its raw entries afterwards are the ones that follow from those before |
| FatCreate.IsPlaced | fs/fat32_dir.c:461-484 | the entries of the name stand in the first room there is, under the first unused alias, and the rest of the directory is as it was |
| FatCreate.PutEntry | fs/fat32_dir.c:468-484 | writing the entries of a name into the room found for them |
| FatCreate.InitDirectoryCluster | fs/fat32_dir.c:561-585 | the first two entries name the directory itself and its parent, and only end marks follow |
| FatCreate.NewDirectoryCluster | fs/fat32.c:284-293 | a new chain of one cluster holding the dot entries and end marks; fails exactly when no cluster is free; no other chain's sectors change |
| FatCreate.MakeDirectory | fs/fat32.c:259-303 | adds a chain and an entry that names it; the new directory holds exactly its dot entries; succeeds if and only if the name is no dot name, a cluster is free, and without it the entry can be created; on failure the cluster is given back; all other files keep their entries and names and all other chains their sectors; free clusters, the parent's clusters and its raw entries afterwards are stated exactly |
| FatCreate.EnterDirectory | fs/fat32.c:295-303 | the entry of a directory that is set up, or its cluster given back |
| FatUpdate.UpdateEntry | fs/fat32_name.c:3-18 | attributes, first cluster and size of the file are read back from its entry, its name and times and all other entries are unchanged, and only that sector differs; fails exactly for a file without an entry |
| FatUpdate.FindRedescribed | fs/fat32_name.c:3-18 | rewriting an entry's cluster and size changes no lookup |
| FatUpdate.EnsureFirstCluster | fs/fat32_file.c:217-243 | an empty file gets the lowest free cluster and its entry records it; succeeds exactly when there is a first cluster, or the file is empty, a cluster is free and there is an entry; when the entry cannot be written the cluster is given back and no chain has changed |
| FatUpdate.WriteData | fs/fat32_file.c:274-334 | the data of a file with a first cluster, for every end below 2^32: which bytes are in place, exactly how far the chain grew and how many clusters are free, and that only its own sectors changed |
| FatUpdate.WriteAndRecord | fs/fat32_file.c:274-345 | the same with the size written back to the entry when it grew, the size and number of bytes reported being stated exactly |
| FatUpdate.WriteFileRange | fs/fat32_file.c:245-345 | for every request: it succeeds if and only if it is to a file, does not start past its end, ends below 2^32 and the clusters it takes to copy its buffer are to be had; the bytes in place, size, entry, chain and free clusters are stated exactly, success or not; the entry keeps its name and every other entry and chain is unchanged; chains stay sound |
| FatUpdate.WriteStarted | fs/fat32_file.c:245-345 | the same from the moment the file has a first cluster |
| FatUpdate.WrittenRight | fs/fat32_file.c:245-345 | a write that succeeds has put its whole buffer in place if and only if it ends at or below 2^32 - 512, and then the size is the larger of the old one and the end |
| FatUpdate.LastSectorLost | fs/fat32_file.c:279-303 | a write that starts in the last sector below 2^32 stores nothing, takes every free cluster and fails |
| FatUpdate.LastSectorExample | fs/fat32_file.c:279-303 | for example one byte at the end of a file of 2^32 - 512 bytes |
| FatUpdate.ShortOfIt | fs/fat32_file.c:245-345 | a new file written from its start beyond 2^32 - 512 ends up with fewer bytes than were to be written |
| FatUpdate.ContentsKept | fs/fat32_file.c:245-345 | chains whose sectors are kept keep their contents and entries |
| FatUpdate.TruncateFile | fs/fat32_file.c:7-13 | the entry says size zero, and the chain stays |
| FatUpdate.CreateWriteRead | fs/fat32_file.c:71-345 | create, write, find and read: both steps succeed exactly when they can, and then the bytes read through the entry found under the name are those written if and only if they are at most 2^32 - 512; every other chain's sectors are as they were |
| FatUpdate.WriteReadNew | fs/fat32_file.c:71-345 | the write and the read of a file that has no cluster yet |
| FatDelete.GatheredBefore | fs/fat32_name.c:196-245 | the parts a scan has gathered are exactly the long-name entries just before it |
| FatDelete.DeleteOne | fs/fat32_dir.c:533-559 | marks one raw entry as deleted and changes no other |
| FatDelete.DeleteEntryChain | fs/fat32_dir.c:533-559 | deletes a short entry and the given number of entries before it, across sectors and clusters, and nothing else |
| FatDelete.DeletedIsGone | fs/fat32_dir.c:533-559 | deleting a found entry with its long-name entries leaves every other file in place under its name |
| FatDelete.FindAfterDelete | fs/fat32_dir.c:533-559 | lookups that led elsewhere, or nowhere, give the same result after a deletion |
| FatDelete.DeleteUndoesCreate | fs/fat32_dir.c:430-559 | deleting the entry just created makes every lookup what it was |
| FatDelete.RemoveEntry | fs/fat32.c:325-368 | gives exactly that chain back and removes exactly that entry; tables stay a set of disjoint chains |
| FatDelete.UnlinkEntry | fs/fat32.c:339-369 | succeeds exactly on a name that leads to a file, removes its entry and its chain, and otherwise changes nothing; the raw entries and free clusters afterwards are the ones that follow from those before |
| FatDelete.CreateThenUnlink | fs/fat32.c:339-369 | creating succeeds exactly when it can; unlinking the name then leaves the chains as they were, but for a cluster the directory grew by, and every lookup gives what it gave before |
| FatDelete.GetDirEntry | fs/fat32.c:152-219 | entry `index` of the enumeration with its long name, absent exactly past the end |
| FatDelete.LivesAre | fs/fat32.c:152-219 | in a well-formed directory the enumeration meets exactly the files in it |
| FatDelete.IsDirectoryEmpty | fs/fat32_dir.c:672-686 | holds exactly when every file in the directory is called "." or ".." |
| FatDelete.RemoveDirectory | fs/fat32.c:305-337 | succeeds exactly on a name that leads to an empty directory, removes its entry and its chain, and otherwise changes nothing; the raw entries and free clusters afterwards are the ones that follow from those before |
| FatDelete.MakeThenRemove | fs/fat32.c:259-337 | mkdir succeeds exactly when it can, rmdir then always does, the chains are those of before but for a cluster the parent grew by, and every lookup gives what it gave before |
| FatRun.DoCreate | fs/fat32.c:115-146 | creating a file keeps the invariant and is one step of a run, dot names being refused; free clusters, the directory's length and its entries afterwards are stated exactly |
| FatRun.DoMkdir | fs/fat32.c:259-303 | so is making a directory, its own cluster included |
| FatRun.DoWrite | fs/fat32_file.c:245-345 | so is a write of any offset and length, whether it succeeds or runs out of clusters; its bytes, size, clusters and the free clusters afterwards are stated exactly |
| FatRun.DoTruncate | fs/fat32_file.c:7-13 | so is emptying a file |
| FatRun.DoUnlink | fs/fat32.c:339-369 | so is removing a file, whose clusters are then free |
| FatRun.DoRmdir | fs/fat32.c:305-337 | so is removing a directory that holds nothing, whose clusters are then free |
| FatRun.Run | fs/fat32.c:108-369 | over every run of create, write, truncate, unlink, mkdir and rmdir in one directory, failures included: the table holds exactly the directory's chain and the chains of its entries, no two of which meet; each operation succeeds if and only if a condition on the state before it holds, has its effect on one entry, changes free clusters, directory and file lengths by exactly what follows from that state, and leaves every other entry, name and content as it was |
| FatAgree.FindLike | fs/fat32_dir.c:91-158 | lookups agree in directories whose entries differ in first clusters and sizes only |
| FatAgree.PlacedLike | fs/fat32_dir.c:430-500 | so does where a new name is placed, under which alias |
| FatAgree.SucceedsAlike | fs/fat32.c:108-369 | whether an operation succeeds is determined by the entries, the lengths of the chains and the number of free clusters |
| FatAgree.StepsAgree | fs/fat32.c:108-369 | two steps of the same operation from states alike in that both succeed or both fail and lead to states alike again |
| FatAgree.RunsAgree | fs/fat32.c:108-369 | two runs of the same operations from states alike agree on which operations succeed and on entries, lengths and free clusters at every moment, and on file contents while no write wraps |
| FatRun.ClustersConserved | fs/fat32_core.c:296-319 | at every moment the free clusters and those of the chains add up to all clusters: none is lost |
| FatRun.EmptyStart | fs/fat32.c:8-85 | a volume whose only chain is that of a directory without entries is a start |
| Ac97Ring.ApplyPolicy | drivers/dummy/ac97_drv.c:259-299 | every policy field ends in range; the default policy leaves room for its margin; a margin can stay too large only for 28 or more prebuffered descriptors |
| Ac97Ring.Stream.constructor | drivers/dummy/ac97_drv.c:347-355 | a stopped stream |
| Ac97Ring.Stream.Hardware | drivers/dummy/ac97_drv.c:906-918 | the hardware moves by any number of slots, never past the last valid one |
| Ac97Ring.Stream.UpdateCiv | drivers/dummy/ac97_drv.c:906-918 | with a reading of the hardware's slot that may be out of date, the count stays at least the number of slots the hardware still has |
| Ac97Ring.Stream.ReadCiv | drivers/dummy/ac97_drv.c:1024-1025 | a slot read before the hardware moves on is one it has passed |
| Ac97Ring.Stream.NoteLvi | drivers/dummy/ac97_drv.c:897-904 | handing over a descriptor extends the window by one and counts it |
| Ac97Ring.Stream.NotOwned | drivers/dummy/ac97_drv.c:1039-1043 | with more than the margin free, the slot after the last valid one is outside the hardware's window |
| Ac97Ring.Stream.FillNext | drivers/dummy/ac97_drv.c:1150-1164 | filling and handing over one descriptor never touches the window, wherever the hardware moves meanwhile |
| Ac97Ring.Stream.SurviveUnderrun | drivers/dummy/ac97_drv.c:928-970 | recovery writes only while the channel is stopped and restores the invariant |
| Ac97Ring.Stream.Prefill | drivers/dummy/ac97_drv.c:1069-1125 | the last descriptor filled before starting |
| Ac97Ring.Stream.Start | drivers/dummy/ac97_drv.c:972-990 | starting establishes the invariant |
| Ac97Ring.Stream.Alive | drivers/dummy/ac97_drv.c:992-1005 | following or restarting the hardware keeps the invariant |
| Ac97Ring.Stream.WaitWritable | drivers/dummy/ac97_drv.c:1007-1067 | a descriptor is handed out only when more than the margin is free, whatever happens at each look: the hardware moving between reading status, reading its slot and using them, cancellation, an underrun, a restart that fails |
| Ac97Ring.Stream.Refill | drivers/dummy/ac97_drv.c:1140-1169 | a batch never writes inside the window |
| Ac97Ring.Play | drivers/dummy/ac97_drv.c:1127-1171 | in every run, with underruns, each start or restart succeeding or failing on its own, and cancellation at any point, no descriptor is written inside the hardware's window; while streaming the count is at least the distance to the last valid slot plus one and, with room for the margin, at most 32 less the margin; success means everything was handed over |

## Left out

- NxfsRun.RunFromMkfs: paths are sequences of components, so splitting strings, buffer limits and paths of slashes only are not modelled; nothing is said about operations after the first rmdir of a directory by its own ".", which leaves a volume without block ownership.
- NxfsRun.RunFromMkfs: block I/O succeeds and does not go through the cache; that no client in range can tell the cache from the device is NxfsCache.RunClient, of which a run of the file system is not written out as an instance.
- NxfsFiles.WriteFileRange: for ends between 2^32 - 512 and 2^32 the round-up to blocks wraps, and only ownership and the other nodes are specified.
- NxfsFiles.ReadFileRange: what is read from a file with fewer blocks than its size needs is not specified; no run from a fresh image makes one.
- NxfsPaths.SetLinks: link counts and the sizes of directories are carried along but no property of them is stated.
- NXFS metadata encoding: inode table and superblock are typed values rather than bytes; byte reads and writes at any offset are proved in NxfsCache. Mode, owner and time fields are not modelled.
- NxfsCache.RunAll: once the costs of the operations add up to more than 2^32 - 2 the 32-bit stamp may wrap, and nothing is claimed from then on.
- NxfsCache.CachedVolume.WriteBytes: the code does not look at the remembered write error before a byte write, so neither does the model.
- FuseRun.RunFromMkfs: rename is not part of the run, because it works on separate copies of what may be one parent inode; read, getattr and readdir would only add members like those of the kernel version.
- FuseFiles.WriteFile: of a write that ends above 2^41 - 512 and yet succeeds, only ownership, the account of the bitmap, the extents and the other nodes are specified, and that its contents are wrong.
- FuseFiles.TruncateFile: sizes above 2^63 - 512 are excluded, because rounding them up overflows a signed 64-bit number, which C leaves undefined.
- FuseAlloc.EnsureBlocks: one bitmap block, as its mkfs makes it.
- BlockRemoval.RunSafe: overflow of the 32-bit reference count, request deadlines and the initialisation of a device before it is published are not modelled.
- BlockQueue.RunOps: the device succeeds, sector by sector, and requests are submitted by one thread; a run of requests that continue one another and together count 2^32 sectors or more is excluded, because there the merged count wraps (BlockQueue.MergeExact).
- BlockReadCache.RunAll: operations run one after the other; concurrent readers may fill the cache late, and the request queue bypasses it. The partition rescan after a write to sector 0 is not modelled.
- Partition tables: one guard per entry, which would only add easy members.
- FatTable.Mount: a volume above the FAT32 cluster limit is accepted by the code, and nothing further is claimed of it.
- FatFiles.ReadFileRange: the sector reads of the model succeed inside the volume.
- FatUpdate.WriteFileRange: the sector writes of the model succeed inside the volume.
- FatRun.Run: the operations work in one directory that has no dot entries, such as the root; resolving paths is left out.
- FatCreate.ReadDirectory: the scans of a directory read all of its entries first and then look at them one by one, where the code does both at once.
- FatDelete.UnlinkEntry: path resolution is left out; the caller names the directory and the chain of the file, which is not the directory's own, so "." and ".." are excluded.
- FatDelete.RemoveDirectory: as for unlink.
- Ac97Ring.Play: sample conversion, register access and descriptor contents are not modelled; a timeout is a number of polls, and how a start or restart ends is arbitrary.
- Hardware drivers, the virtual file system layer, procfs and other text formatting, the shell and the host tools' commands: plumbing without a deep invariant.
