# Verified models of the pinx kernel

pinx is a small x86-64 kernel written in Rust. This project models its three stateful cores and
three smaller parts in Dafny and proves what they keep over every input, every reachable state and
every run:

* the **ext4 driver** (`src/ext4.rs`): byte codecs, bitmap allocator with its duplicated counters
  and checksums, extent trees that merge, deepen and split, inodes, files, directories and `create`;
* **memory management** (`src/mm.rs`): the frame bitmap, four-level page tables, the kernel heap;
* the **scheduler** (`src/scheduler.rs`, with the scheduling calls of `src/syscall.rs` and
  `src/interrupts.rs`): a state machine over any number of processors, one step per region that
  holds the run-queue lock, and a finer machine in which returning to the new stack is a step of
  its own;
* the **program loader** (`src/user.rs`) and `mmap`, on top of the frame allocator and the page
  tables;
* the **CRCs** (`src/crc.rs`) and the **GPT reader** (`src/gpt.rs`).

## How the model is built

Code that changes things in place is a class with the same fields (`Filesystem.Ext4`,
`Frames.FrameAllocator`, `VirtualMemory.Vmm`, `Heap.KernelHeap`, `Loader.ProgramLoader`,
`Loader.UserRegions`, `Scheduler.RunQueue`, `Gpt.GptTables`); its loops are loops. Each method is
proved against value-level definitions (a file's block map, the list of links of a directory, the
walk of an address, the state machine of the scheduler), and lemmas prove what the kernel promises
about those.

| files | content |
|---|---|
| `Bytes`, `Arith`, `Bitmap`, `Crc` | little-endian fields, products and quotients by repeated addition, bits, checksums |
| `Volume`, `Allocator`, `Frame` | layout of a mounted volume, its consistency, what leaves it alone |
| `Extents`, `ExtentTree`, `TreeGrowth`, `OwnedTree` | extent records, lookup, insertion, deepening and splitting, ownership of leaf blocks |
| `Inodes`, `Files`, `Directory`, `DirFiles`, `Creation`, `Runs`, `Contents`, `Names` | inode records, reading and writing, directory blocks, creation, whole runs, what files hold, what names stand for and what inodes count after them |
| `Ext4` | the driver's operations (module `Filesystem`) |
| `Frames`, `PageTable`, `PageRuns`, `VirtualMemory`, `Heap`, `HeapInit` | `src/mm.rs` |
| `UserImage`, `Loader` | `load_elf`, `map_segment`, `map_user_stack`, `sys_mmap` |
| `Scheduling`, `SchedulerRuns`, `StackHandoff`, `Scheduler` | the scheduler as a machine, its runs, its stacks, its tables |
| `Gpt` | `detect` |

A disk is a sequence of blocks. `Consistent` ties together bitmaps, group descriptors, superblock
and the driver's counters: every free count is the number of clear in-range bits, the superblock's
count is the sum of the groups', and with metadata checksums on every superblock, descriptor and
bitmap stores the CRC32C of its own bytes. `FileOwned`, `TreeOk` and `DirOk` say the same of a file's
tree and of a directory: extents sorted, disjoint and inside their index ranges, leaf and directory
tails sealed, all blocks in use and nobody else's. `FileLoose` drops the order: the extents do not
overlap and each is in the leaf it is looked for in, which is what lookups need. Block
access demands that the block is on the device, so every operation is also proved to stay on it.

`Halted` (or a `false` result where noted) stands for `kpanic!` and for Rust's own panics.

## Where the code does less than it could promise

Each of these is stated as an exact condition, with an input that fails it where one is needed.

* A merge that makes an extent 0x8000 blocks long hides the extent: `ExtentTree.InsertedMapExact`,
  `ExtentTree.OverlongExample`. `write_file` notices and returns `Corrupt`; `add_dirent` does not.
* A split that finds the root full has already cut the leaf: `TreeGrowth.SplitTruncates`, and
  `Spared` in the contract of `Filesystem.Ext4.InsertExtent`. What is then left of a file is
  `Remnant` in `Filesystem.Ext4.WriteFile`, and of a directory `DirReceded` in
  `Filesystem.Ext4.AddDirent`.
* Insertion goes to the end of the last leaf. The block is found afterwards exactly when it does not
  lie below that leaf's key and its extent can be read: `ExtentTree.InsertionExact`, for every
  well-formed tree and every unmapped block. `Contents.HoleExample` is a file with two leaves where
  writing into a hole takes a block and returns `Corrupt`.
* Without 64-bit fields a size of 4 GiB or more is cut when it is stored: `Files.ReadBack`, with an
  input in `Contents.CutExample`.
* A write past the end of a file shows whatever its blocks hold there: `Files.ContentAfterWrite`. It
  reads as zeros whatever they hold exactly when no block of the file meets the gap
  (`Contents.GapExact`). A write that ran out of space leaves such bytes (`Contents.StaleBytes`,
  `Contents.StaleExample`); with writes that succeed they never come up (`Contents.RunContent`).
* `add_dirent` returns success without the name being there exactly when no block has room and the
  new block cannot be found or the size is cut; the directory is then no longer well formed:
  `Filesystem.Ext4.AddDirent`, `Filesystem.Ext4.Create`, `DirFiles.LinkLost`.
* The superblock's counters are written where the superblock is exactly on volumes of 1024-byte
  blocks: `Volume.SuperPlace`.
* A memory-map region that does not start on a frame boundary brings in a frame that sticks out:
  `Frames.AlignedRegion`, `Frames.MisalignedRegion`.
* The frame bitmap starts inside the region it is put in exactly when that region has room for it
  below its last frame boundary: `Frames.BitmapPlace`.
* Blocking and scheduling are two lock regions. A task becomes current twice exactly when a processor
  schedules onto one that is still current elsewhere (`Scheduling.StepSound`, `Scheduling.RunSound`);
  a wake-up between the two regions leads there (`SchedulerRuns.SplitBlocking`). Even when nothing
  comes between them a blocked task can be resumed while its processor is still on its stack
  (`StackHandoff.BlockingSharesStack`); stacks stay apart exactly when no move takes one that is in
  use (`StackHandoff.RunApart`), which without blocking calls never happens (`StackHandoff.RunSafe`).
* The clock is 64 bits wide: `SchedulerRuns.TickExact`, `SchedulerRuns.StepStuck`.
* `pick` takes the lowest ready slot, so the round robin that the module comment speaks of holds for
  two tasks (`SchedulerRuns.Alternate`) and a third one may never run (`SchedulerRuns.NeverChosen`).
* `create` marks the inode before it looks at the name's length, so a refused name leaves an inode
  allocated: the error clauses of `Filesystem.Ext4.Create`.
* A GPT header whose size field exceeds the sector stops the kernel: `Overrun` in the contract of
  `Gpt.GptTables.Detect`.

## Model

| member | source | states |
|---|---|---|
| `Bytes.PutLe16` | src/ext4.rs:124-127 | reading the field back gives the value modulo 2^16, no other byte changes |
| `Bytes.PutLe32` | src/ext4.rs:128-133 | reading the field back gives the value modulo 2^32, no other byte changes |
| `Crc.TableStep` | src/crc.rs:35-40 | for every register and polynomial, eight bit-serial steps are one shift by eight and one table look-up on the low byte |
| `Crc.BuildTable` | src/crc.rs:11-29 | the nested loops fill the table with the eight-step image of every byte |
| `Crc.Update` | src/crc.rs:35-40 | the table-driven loop over any bytes equals the bit-serial reference |
| `Crc.SerialValue` | src/crc.rs:35-40 | read as a number, the bit-serial register is the one that shifting right and adding the polynomial modulo two gives, byte after byte |
| `Crc.Crc32Numbers` | src/crc.rs:35-48 | so both checksums of any bytes are those numbers |
| `Crc.Polynomials` | src/crc.rs:8-9 | the two constants are the sums of the bits that the exponents of the IEEE 802.3 and the Castagnoli polynomial select, lowest exponent highest |
| `Crc.Crc32Concat` | src/crc.rs:42-44 | the CRC32 of a concatenation is the chained CRC32 of its parts |
| `Crc.Crc32cConcat` | src/crc.rs:46-48 | the same for CRC32C |
| `Gpt.SizeDivides` | src/gpt.rs:120-122 | the sizes that pass the test are 128, 256 and 512, and then the slots fill the sector |
| `Gpt.ListedRank` | src/gpt.rs:153-187 | every entry in use is listed, at the position given by how many in use precede it |
| `Gpt.ListedOnly` | src/gpt.rs:153-187 | nothing else is listed |
| `Gpt.ListedSane` | src/gpt.rs:164-171 | every partition listed has a type that is not zero and covers at least one sector after the first |
| `Gpt.DescribedBytes` | src/gpt.rs:167-186 | type, identifier and name are bytes 0, 16 and 56 and on of the entry, the two sector numbers are the eight-byte numbers at 32 and 40 |
| `Gpt.GptTables.HashSector` | src/gpt.rs:150-151 | hashing one more sector, cut at the end of the array, extends the hash of the prefix |
| `Gpt.GptTables.TakeEntry` | src/gpt.rs:161-186 | the entry is stored in the next slot exactly when it is in use and fewer than sixteen are kept |
| `Gpt.GptTables.ScanSector` | src/gpt.rs:153-187 | after the slots of a sector the kept partitions are the first sixteen of all entries so far |
| `Gpt.GptTables.ScanEntries` | src/gpt.rs:124-188 | succeeds exactly when all sectors can be read; the running checksum is that of the whole array and the parts are its first sixteen partitions in order |
| `Gpt.GptTables.Detect` | src/gpt.rs:84-205 | a table is found exactly when header and entry array are valid; the kept partitions are the first sixteen in use, in order, none of them empty; otherwise no table changes; an oversized header stops the kernel |
| `Extents.WrHdr` | src/ext4.rs:204-210 | the header reads back, the records behind it are untouched |
| `Extents.WrExtent` | src/ext4.rs:231-237 | the extent reads back, unless its length is zero or at least 0x8000, and no other record changes |
| `Extents.WrIndex` | src/ext4.rs:250-256 | the index entry reads back, no other record changes |
| `Extents.MapOfSize` | src/ext4.rs:1068-1088 | extents that do not overlap map exactly as many blocks as their lengths add up to |
| `Volume.RecAddress` | src/ext4.rs:563-572 | block and offset computed by division are those of the record counted off block by block |
| `Volume.GroupOfBit` | src/ext4.rs:799-812 | the group and bit computed from a block number are those the number was made from |
| `Volume.InodeOfBit` | src/ext4.rs:814-848 | the same for inode numbers |
| `Volume.UsualSizesFit` | src/ext4.rs:302-335 | the block, inode and descriptor sizes in use meet what the model assumes of a geometry |
| `Volume.SuperPlace` | src/ext4.rs:450-456 | the superblock lies in the block the driver takes for it, and at that block's first byte exactly with 1024-byte blocks |
| `Volume.SealDesc` | src/ext4.rs:504-525 | the descriptor stores the checksum of its own bytes with the field zeroed, its other fields unchanged |
| `Allocator.DescsApart` | src/ext4.rs:481-500 | two group descriptors never share a byte |
| `Allocator.TableExact` | src/ext4.rs:680-692 | the blocks the driver counts as a group's inode table are exactly those that the record of one of its inodes starts in |
| `Allocator.ReservedExact` | src/ext4.rs:664-692 | a block is refused exactly if it is, in group 0, at or before the last descriptor or one of the blocks kept for more of them, or a bitmap of the group, or holds an inode of the group |
| `Allocator.SpareExact` | src/ext4.rs:664-740 | on a consistent volume the blocks that can be handed out are exactly the free ones but for those kept for descriptors to come |
| `Allocator.PutSuperCounts` | src/ext4.rs:543-559 | both counters read back and the superblock's checksum is right |
| `Allocator.PatchDesc` | src/ext4.rs:745-797 | counts, checksums and unused-inode count of the descriptor change as asked and nothing else in it |
| `Allocator.CountersFit` | src/ext4.rs:543-559 | on a consistent volume no counter overflows its field or goes below zero when a clear bit is taken |
| `Allocator.BlockCommitted` | src/ext4.rs:799-812 | marking the bit, restamping its group and the superblock gives a consistent volume on which exactly that block stopped being free |
| `Allocator.InodeCommitted` | src/ext4.rs:814-848 | the same for an inode |
| `Filesystem.Ext4.BlockReserved` | src/ext4.rs:664-692 | true exactly for blocks up to the last descriptor and the reserve behind it in group 0, the two bitmaps, and the blocks that hold a record of an inode of the group |
| `Filesystem.Ext4.AllocBit` | src/ext4.rs:696-740 | marks the first unit of the first group that has one which is clear, in range and not reserved; fails, changing nothing, exactly when there is none |
| `Filesystem.Ext4.PersistSuperCounts` | src/ext4.rs:543-559 | memory and superblock counters move together, the superblock is sealed, no other block changes |
| `Filesystem.Ext4.CommitAlloc` | src/ext4.rs:745-797 | one descriptor and the superblock are restamped, every other block is unchanged |
| `Filesystem.Ext4.AllocBlock` | src/ext4.rs:799-812 | keeps the volume consistent; the block is the least free one outside the reserve for descriptors, and the only one that stopped being free; `NoSpace` exactly when every free block is in that reserve, and then nothing changed |
| `Filesystem.Ext4.AllocInode` | src/ext4.rs:814-848 | the same for inodes; the group's directory count grows for a directory and its unused tail shrinks to what lies behind the inode |
| `Runs.NeverTwice` | src/ext4.rs:696-848 | over any sequence of allocations, with other work between them, no block and no inode is handed out twice |
| `ExtentTree.TailFits` | src/ext4.rs:852-874 | the checksum tail of a full leaf lies inside the block for every block size, and no leaf could hold one record more |
| `ExtentTree.LeafLookup` | src/ext4.rs:887-902 | the scan of a leaf returns what the first extent that covers the block gives, whatever the order of the extents |
| `ExtentTree.ChooseKid` | src/ext4.rs:904-926 | the scan of the index selects the first child whose key range holds the block, 0xFFFFFFFF ending the last range |
| `ExtentTree.ChosenLeaf` | src/ext4.rs:904-926 | only the leaf whose key range holds a block can map it |
| `Filesystem.Ext4.MapBlock` | src/ext4.rs:877-938 | on any tree of at most one index level the walk returns what the selected leaf gives; where extents do not overlap and are in their leaves, that is the value of the logical-to-physical map, for every block number |
| `ExtentTree.InsertedMapExact` | src/ext4.rs:955-968 | inserting beyond the extents updates the map at that block and nowhere else, exactly when the grown extent stays below 0x8000 blocks |
| `ExtentTree.OverlongExample` | src/ext4.rs:956-963 | a file of 32767 contiguous blocks loses all of them to the next contiguous block |
| `ExtentTree.InsertedSorted` | src/ext4.rs:985-1023 | the extent list stays sorted exactly when the block lies beyond it |
| `ExtentTree.FoundLoose` | src/ext4.rs:877-938 | where extents do not overlap and lie in their leaves, sorted or not, the walk finds exactly what the tree maps |
| `ExtentTree.InsertionExact` | src/ext4.rs:877-1023 | after an unmapped block was inserted the walk finds the old map with that block exactly when the block is not below the last leaf's key and its extent can be read; otherwise it does not find the block |
| `TreeGrowth.LastLeafLoose` | src/ext4.rs:994-1023 | a tree whose last leaf took an unmapped block serves lookups exactly when the block is not below that leaf's key |
| `Contents.HoleExample` | src/ext4.rs:1301-1311 | a well-formed file with two leaves: while a block is left, writing to block 5 takes it and ends in `Corrupt` |
| `TreeGrowth.LeafInsert` | src/ext4.rs:1008-1023 | merges or appends exactly when it can, and the leaf's extents are then the old ones with the block inserted |
| `TreeGrowth.SealLeaf` | src/ext4.rs:865-874 | sealing a leaf keeps its header and records and stores the right checksum |
| `TreeGrowth.HalveLeaf` | src/ext4.rs:1026-1046 | the two halves hold the leaf's extents in order, both sealed |
| `TreeGrowth.MoveOut` | src/ext4.rs:970-980 | the new leaf holds the inode's own extents and is sealed |
| `TreeGrowth.AddKid` | src/ext4.rs:1053-1054 | the root has one more child at the end and is otherwise unchanged |
| `TreeGrowth.Deepened` | src/ext4.rs:969-983 | moving the inode's extents to a leaf keeps the tree's extents and its invariant |
| `TreeGrowth.SplitDone` | src/ext4.rs:1026-1056 | splitting the last leaf and indexing the upper half keeps the tree's extents and its invariant |
| `TreeGrowth.SplitTruncates` | src/ext4.rs:1043-1052 | when the root cannot take the upper half, the tree ends where the lower half ends |
| `OwnedTree.RefusedCrowded` | src/ext4.rs:985-992 | for a block beyond all others: an insertion is only refused when no block is left or the file already has at least as many blocks as a leaf has records |
| `OwnedTree.Foreseen` | src/ext4.rs:944-992 | whether the next free block can be inserted, and found again, can be told before it is taken |
| `OwnedTree.PrefixTree` | src/ext4.rs:1043-1056 | a root that has only the first leaves of a well-formed tree heads a well-formed tree of its first extents |
| `Filesystem.Ext4.PlaceInLeaf` | src/ext4.rs:994-1023 | for every unmapped block: placed exactly when it continues the last extent or the last leaf has room; the tree stays well formed exactly when the block lies beyond the others and its extent is readable, and serves lookups exactly when it is not below the last key; otherwise nothing changes |
| `Filesystem.Ext4.SplitLeaf` | src/ext4.rs:1026-1048 | the upper half of the last leaf moves to a block that was free |
| `Filesystem.Ext4.PlaceInRightmostLeaf` | src/ext4.rs:994-1057 | for every unmapped block: placed, split or refused, each under its exact condition; a split keeps the map and leaves room |
| `Filesystem.Ext4.Deepen` | src/ext4.rs:969-983 | the inode's extents move to a fresh leaf without changing the map |
| `Filesystem.Ext4.Attempt` | src/ext4.rs:986-990 | the first attempt may split, and after a split or a deepening the next one always places the block, so two attempts suffice |
| `Filesystem.Ext4.InsertExtent` | src/ext4.rs:944-992 | for every unmapped block: succeeds exactly when a leaf has room or both a block and a root slot are left; then the extents are the old ones with the block at the end, and what lookups find is known; an error tells exactly which extents are left |
| `ExtentTree.LeafSum` | src/ext4.rs:1068-1088 | adds up the lengths of a leaf's readable extents |
| `Filesystem.Ext4.NodeSum` | src/ext4.rs:1068-1088 | adds up the lengths of all extents of the tree |
| `Filesystem.Ext4.RecountBlocks` | src/ext4.rs:1060-1066 | the count in 512-byte units is the size in bytes of the mapped blocks |
| `Inodes.ComputeCsum` | src/ext4.rs:615-638 | the piecewise checksum is that of the whole inode with its checksum fields zeroed |
| `Inodes.CsumStored` | src/ext4.rs:621-643 | storing the checksum does not change what it should be |
| `Inodes.EncodeInode` | src/ext4.rs:606-644 | the stored bytes decode to the inode's fields (size and blocks cut to 32 bits without 64-bit support) and are sealed |
| `Inodes.InodesApart` | src/ext4.rs:563-572 | two inode records never share a byte |
| `Inodes.InodeStored` | src/ext4.rs:646-648 | storing one record changes that inode and no other |
| `Filesystem.Ext4.InodeLocation` | src/ext4.rs:563-572 | block and offset are those of the inode's record in its group's table |
| `Filesystem.Ext4.ReadInode` | src/ext4.rs:574-599 | returns the decoded record |
| `Filesystem.Ext4.WriteInode` | src/ext4.rs:601-649 | the record reads back, sealed; all other inodes and all data blocks are unchanged |
| `Filesystem.Ext4.AddBlock` | src/ext4.rs:1303-1307 | succeeds exactly when the next free block has a place in the tree, for every unmapped block; then it is that block, and it is found exactly when that could be told before; after `NoSpace` a first part of the extents is left |
| `Filesystem.Ext4.WriteChunk` | src/ext4.rs:1301-1311 | succeeds exactly when the block is mapped or can be added and found; then that block holds the chunk over its old bytes or over zeros and all others are as they were; `NoSpace` and `Corrupt` each exactly under their cause |
| `Filesystem.Ext4.WriteFile` | src/ext4.rs:1282-1320 | on success every byte of the file is that of the buffer or the old one, the stored sector count is the byte size of the mapped blocks over 512 and the inode is sealed; no other inode or owned block changes; an error names the byte it stopped at and why that block was refused, with an if-and-only-if for writes inside one block, holes included; after `NoSpace` the old root heads a well-formed tree that lost blocks at its end only |
| `Files.WriteCounted` | src/ext4.rs:1060-1066 | after a write the stored count times 512 is the size in bytes of the mapped blocks, where the field can hold it |
| `Files.AddedFound` | src/ext4.rs:1301-1309 | a block that was added is found, and mapped, exactly when it is not below the key of the leaf that took it and its extent can be read |
| `Files.RemnantLeft` | src/ext4.rs:1282-1320 | a write that ran out of space, its new root not stored, leaves under the old root a well-formed tree of blocks the file had or got; blocks are lost at the end only, the others hold their bytes with those that arrived |
| `Filesystem.Ext4.ReadFile` | src/ext4.rs:1250-1280 | returns exactly the bytes of the file from the offset on, up to its end, holes as zeros, also for a file whose extents are out of order |
| `Files.ReadBack` | src/ext4.rs:1250-1320 | what was written is read back exactly when the stored size still covers it |
| `Files.ContentAfterWrite` | src/ext4.rs:1250-1320 | the content afterwards is the old content, extended with zeros and overlaid with the buffer, exactly when the gap is zero on disk |
| `Contents.GapExact` | src/ext4.rs:1282-1320 | the gap reads as zeros whatever the blocks of the file hold exactly when none of its blocks lies in it |
| `Contents.SafeOverlay` | src/ext4.rs:1282-1320 | over such a gap the content afterwards is the old one, extended with zeros and overlaid |
| `Contents.StaleExample` | src/ext4.rs:1282-1320 | a file of ten bytes with other bytes behind them: a write at offset 20 leaves no zeros between |
| `Contents.StaleBytes` | src/ext4.rs:1301-1311 | a write past the end that ran out of space leaves its bytes where a later write makes them show |
| `Contents.CutExample` | src/ext4.rs:601-649 | without 64-bit fields a byte written at 2^32 into an empty file gives it size one and is not read back |
| `Contents.TailKept` | src/ext4.rs:1282-1320 | a write whose size can be stored keeps the bytes behind the end zero, and then lays its bytes over the content |
| `Contents.NewEmpty` | src/ext4.rs:1324-1355 | a created file is empty with only zeros behind its end |
| `Contents.RunContent` | src/ext4.rs:1250-1366 | after any run, other files written, created or failed on in between, the content of a file is its first content with the writes to it overlaid in turn |
| `Files.OtherFileSame` | src/ext4.rs:1282-1320 | every other file keeps its inode, its map and its bytes |
| `Directory.FillEntry` | src/ext4.rs:259-265 | the record's fields and name read back, no other byte changes |
| `Directory.FillHole` | src/ext4.rs:1212-1217 | reusing an unused record keeps the tiling and adds exactly the new link |
| `Directory.SplitSlack` | src/ext4.rs:1223-1231 | splitting the last record keeps the tiling and adds exactly the new link |
| `Directory.BlockInsert` | src/ext4.rs:1201-1231 | succeeds exactly when the block has a hole or enough slack; the links grow by exactly the new one |
| `Directory.BlockLookup` | src/ext4.rs:1159-1173 | the scan of a block finds the first link of that name |
| `Directory.GrownFind` | src/ext4.rs:1146-1177 | after a new name is added it is found, and every other name is looked up as before |
| `DirFiles.DirTailCsum` | src/ext4.rs:1092-1105 | the tail is well formed and stores the checksum of the entries, which are unchanged |
| `DirFiles.WholeTiled` | src/ext4.rs:1092-1105 | records tile a well-formed directory block from its first byte to its last, the checksum tail among them as an unused one |
| `DirFiles.StaysCounted` | src/ext4.rs:1235-1245 | a directory that gets a link keeps a right sector count, and one that grew has a right one |
| `DirFiles.NewDirBlock` | src/ext4.rs:1238-1240 | a fresh block tiles its space with one entry and is sealed |
| `Filesystem.Ext4.LookupName` | src/ext4.rs:1146-1177 | the search over all blocks finds the first link of that name in the whole directory |
| `Filesystem.Ext4.AddInBlocks` | src/ext4.rs:1198-1233 | adds the link in place exactly when some block has room |
| `Filesystem.Ext4.AppendDirBlock` | src/ext4.rs:1235-1245 | succeeds exactly when the directory can get a block; a block with the link is then at the end and the inode's size and count follow, unless the block is not found or the size is cut, when the directory is not well formed; after `NoSpace` it has a first part of its links |
| `Filesystem.Ext4.AddDirent` | src/ext4.rs:1180-1246 | each of the three errors exactly under its cause; on success the directory's links (name, inode and type) grow by exactly the new one, size and sector count follow and its blocks stay tiled and sealed, exactly when a block has room or the new block is found and the size stored, and otherwise the directory is not well formed; nothing else changes |
| `DirFiles.LinkLost` | src/ext4.rs:1235-1245 | a directory that got a block it cannot find, or whose size was cut, is not well formed |
| `DirFiles.RefusedEntry` | src/ext4.rs:1235-1245 | a directory that could not get a block is well formed and has a first part of its links |
| `Creation.FirstDirBlock` | src/ext4.rs:1343-1347 | the first block of a directory holds "." for itself and ".." for its parent |
| `Creation.BornKind` | src/ext4.rs:1329-1355 | the mode of a new inode says directory or regular file as asked, its flags say extents and no hashing, and the type byte of its link agrees with its mode |
| `Creation.BornCounted` | src/ext4.rs:1329-1355 | a new directory has one block, a new file none, and the sector count says so |
| `Filesystem.Ext4.StoreNew` | src/ext4.rs:1329-1355 | the stored inode is an empty regular file or a directory of that one block, the next free one; fails exactly for a directory without a free block |
| `Filesystem.Ext4.BumpLinks` | src/ext4.rs:1358-1364 | the parent's link count grows by one modulo 2^16, its mode, links, blocks and sector count stay; it is well formed exactly if it was |
| `Filesystem.Ext4.Create` | src/ext4.rs:1324-1366 | succeeds exactly when the name is new, an inode is left and nothing blocks the entry, all told from the volume before; then one formerly free inode is taken and stored with the mode asked for, the parent's links grow by the name with the type of that mode, a directory's parent counts one more link, everything else is kept, exactly when the name can stay, and otherwise the parent is not well formed; each error has its cause and leaves the parent a first part of its links and all other files as they were |
| `Creation.PlaceForeseen` | src/ext4.rs:1324-1366 | whether the name gets a place, and whether it stays, can be told before the new inode takes its block |
| `Runs.CreatedFound` | src/ext4.rs:1324-1366 | after a creation the name stands for the new inode and every other name for what it did |
| `Runs.StepOk` | src/ext4.rs:1282-1366 | every write and creation, whatever its result, keeps the followed files on blocks of their own, readable and sealed, and the tidy ones well formed, directories with them |
| `Runs.OneUnharmed` | src/ext4.rs:1282-1366 | however an operation ends, a file it is not on keeps its inode, its map, its bytes and its order |
| `Runs.RunOk` | src/ext4.rs:1282-1366 | over every run, failures included, this holds at every point and the volume stays consistent, both assumed of the first state only |
| `Runs.RunUnharmed` | src/ext4.rs:1282-1366 | a file that no operation of a run is on keeps its inode and its bytes, whatever the operations returned |
| `Names.NewDirLooks` | src/ext4.rs:1341-1347 | in a directory just made "." is found to be itself and ".." its parent |
| `Names.NewFileWrites` | src/ext4.rs:1282-1355 | a write to a file just made is not refused as being to no file |
| `Names.RunKind` | src/ext4.rs:1282-1366 | over every run, failures included, an inode that stays followed keeps its mode |
| `Names.RunWritable` | src/ext4.rs:1282-1366 | however late in a run, a write to a file created in it is not refused as being to no file |
| `Names.RunNames` | src/ext4.rs:1146-1366 | over every run of creations in a directory, with anything done elsewhere, each name stands for what was created under it, and one that was bound never changes |
| `Names.RunDots` | src/ext4.rs:1324-1366 | a directory created in a run keeps "." for itself and ".." for its parent |
| `Names.RunCounted` | src/ext4.rs:1060-1366 | over every run in which what is done to an inode succeeds, with anything done to others, its sector count stays right |
| `Names.RunBornCounted` | src/ext4.rs:1060-1366 | so it is for every file and directory created in the run |
| `Frames.FullWord` | src/mm.rs:204-217 | a word is all ones exactly when its 64 frames are in use |
| `Frames.WrapCovers` | src/mm.rs:202-204 | whatever the hint, a round of the scan reaches every word |
| `Frames.FrameHasBit` | src/mm.rs:140-141 | every frame of a usable region has a bit in the bitmap |
| `Frames.BitmapHasBit` | src/mm.rs:140-152 | so has every frame of the bitmap itself |
| `Frames.BitmapSize` | src/mm.rs:140-143 | the bitmap has fewer than 64 bits and its pages less than a page to spare |
| `Frames.BitmapPlace` | src/mm.rs:147-152 | the bitmap ends inside the largest region, and starts in it exactly when the region has room for it below its last frame boundary |
| `Frames.AlignedRegion` | src/mm.rs:175-182 | in a region that starts on a frame boundary the freed frames are those inside it |
| `Frames.MisalignedRegion` | src/mm.rs:175-182 | in any other the first freed frame starts before the region |
| `Frames.FrameAllocator.Init` | src/mm.rs:102-190 | fails exactly without usable memory or room for the bitmap; afterwards a bit is clear exactly for usable frames outside the bitmap's own |
| `Frames.FrameAllocator.AllocPage` | src/mm.rs:192-223 | returns a frame that was free and marks exactly it; "no page" exactly when every frame is in use |
| `Frames.FrameAllocator.FreePage` | src/mm.rs:225-248 | clears exactly the frame's bit; a bad address stops the kernel |
| `Frames.LiveMarked` | src/mm.rs:192-248 | over every run the frames handed out and not returned are marked |
| `Frames.NoLiveFrameAgain` | src/mm.rs:192-248 | over every run no frame that somebody still has is handed out again |
| `PageTable.WalkElsewhere` | src/mm.rs:276-360 | in tables that form a tree a written entry is seen only by walks through its place |
| `PageTable.WalkGrown` | src/mm.rs:305-312 | hanging a zeroed fresh table under an absent entry changes no walk |
| `PageTable.WalkRaised` | src/mm.rs:296-342 | setting the user bit on a table entry changes no translation and closes nothing |
| `PageTable.LeafWritten` | src/mm.rs:354 | writing a leaf changes the walk of its own page and no other |
| `PageTable.LeafEntryBits` | src/mm.rs:354 | a leaf is present, names the frame, and has every flag bit asked for and no other, above the address bits too |
| `PageTable.WriteExact` | src/mm.rs:276-360 | a page can be written on all levels exactly when its leaf says so and every table above it is entered for writing |
| `PageTable.WayGrown` | src/mm.rs:293-312 | a new table is entered for writing and closes no way to a page |
| `PageTable.LargeAsSmall` | src/mm.rs:455-496 | a 1 GiB or 2 MiB leaf translates every address as the 4 KiB leaf of the frame it has there would |
| `PageTable.SamePage` | src/mm.rs:285-288 | two addresses take the same four indices exactly when they are on the same 48-bit page |
| `VirtualMemory.Vmm.Descend` | src/mm.rs:297-314 | one level down: the child is reached through the entry, a new one is fresh, no walk changes, and the tables stay a tree |
| `VirtualMemory.Vmm.MapPageFlags` | src/mm.rs:276-360 | afterwards the page translates to the frame and every other address as before; its leaf has exactly the flags asked for, and it can be written if they say so and the tables that were on the way allow it; user pages stay reachable; refused only for a bad address, a large page on the way or no frame, and then no walk changed |
| `VirtualMemory.Vmm.VirtToPhys` | src/mm.rs:455-496 | returns the translation of the walk, 1 GiB and 2 MiB leaves included |
| `VirtualMemory.Vmm.UnmapPage` | src/mm.rs:401-450 | afterwards the page is not mapped and every other address as before; stops exactly when a large page lies on the way |
| `PageRuns.RunLeaf` | src/mm.rs:276-450 | after any run of calls every page leads where the calls on it left it |
| `PageRuns.RunCloses` | src/mm.rs:290-342 | after any run every user leaf is open on all levels, if it was before the first call |
| `PageRuns.RunUser` | src/mm.rs:290-354 | after any run user code reaches exactly the pages whose leaf, as the calls left it, has the user bit, assumed of the first state only |
| `PageRuns.RunWrite` | src/mm.rs:276-450 | after any run a page can be written exactly when its leaf, as the calls left it, says so and the tables that were on the way before the first call are entered for writing |
| `PageRuns.NeverOpened` | src/mm.rs:290-354 | a page that no call maps for user code stays closed to it |
| `Heap.LiveDisjoint` | src/mm.rs:550-642 | payloads in use are 16-byte aligned, inside the window and disjoint |
| `Heap.SplitTiles` | src/mm.rs:569-581 | splitting a block keeps the headers tiling the window |
| `Heap.SplitLive` | src/mm.rs:569-581 | splitting a free block moves nothing that is in use |
| `Heap.JoinTiles` | src/mm.rs:608-614 | merging two neighbours keeps the tiling |
| `Heap.JoinLive` | src/mm.rs:608-614 | merging two free neighbours moves nothing that is in use |
| `Heap.AllFreed` | src/mm.rs:598-642 | a merged heap with nothing in use is one free block over the window |
| `Heap.CallGood` | src/mm.rs:550-642 | every call keeps the headers tiling the window with no two free neighbours, and adds or removes exactly its block |
| `Heap.NullMeans` | src/mm.rs:550-596 | in a window of the 64-bit space an allocation returns null exactly for size zero or when every free block is smaller than the size |
| `Heap.TakenSize` | src/mm.rs:556-581 | a block that is taken is at least as large as asked and less than a header and 16 bytes larger |
| `Heap.KernelHeap.Malloc` | src/mm.rs:550-596 | returns the first fitting block, adding exactly it to those in use, less than a header and 16 bytes larger than asked; null exactly for size zero or when every free block is smaller than asked; heap and result are those of the functions that runs are made of |
| `Heap.KernelHeap.Coalesce` | src/mm.rs:598-620 | afterwards no two neighbours are free and what is in use is unchanged |
| `Heap.KernelHeap.Free` | src/mm.rs:622-642 | removes exactly that block from those in use; freeing a block marked free changes nothing, even after it was merged away |
| `Heap.RunLive` | src/mm.rs:550-642 | at every point of every run from the initial block the headers tile the window, no two neighbours are free and the blocks in use are those taken and not given back |
| `Heap.RunRestores` | src/mm.rs:550-642 | once all are given back, in any order, the heap is its single initial block |
| `HeapInit.BackPage` | src/mm.rs:525-538 | one more page of the window is mapped for the kernel alone and for writing, to a frame no other page of it has |
| `HeapInit.InitHeap` | src/mm.rs:500-548 | the heap is one free block over as many mapped pages as there were frames for, at most 2048, all mapped for the kernel alone and for writing |
| `HeapInit.BackedWritable` | src/mm.rs:525-538 | user code cannot reach a page of the heap, and the kernel can write it exactly when the tables above it are entered for writing |
| `UserImage.ImageCorrect` | src/user.rs:263-311 | with disjoint segments every address below the file size holds its file byte and the rest up to the memory size is zero, also on shared pages |
| `UserImage.HeaderPlaces` | src/user.rs:220-231 | the program headers follow each other from the stated offset on, at the stated distance |
| `UserImage.LoadableExact` | src/user.rs:230-255 | the program is rejected exactly when one of its program headers does not fit the file, or asks to load with more file bytes than memory or bytes past the file's end |
| `UserImage.LoadableRank` | src/user.rs:230-255 | every header that asks to load something has its segment, at the place that the number of such headers before it gives |
| `UserImage.LoadableOnly` | src/user.rs:230-255 | no other segment is loaded |
| `UserImage.AskedLoaded` | src/user.rs:230-311 | an address that a header asks for has a byte, and where no other header asks for it that byte is the file's or zero as the header says |
| `Loader.ProgramLoader.PlacePage` | src/user.rs:277-288 | a page that has a frame keeps it and its bytes, any other gets a zeroed frame of its own, open to user code and mapped for writing |
| `Loader.ProgramLoader.CopyPart` | src/user.rs:292-305 | the bytes of the segment that belong on the page are in its frame, all other bytes are as they were |
| `Loader.ProgramLoader.LoadPage` | src/user.rs:271-307 | the pages hold what loading the segment up to the end of this page puts there |
| `Loader.ProgramLoader.MapSegment` | src/user.rs:263-311 | all pages of the segment are placed and hold the segments so far; fails only without frames, stops at a large page |
| `Loader.ProgramLoader.LoadElf` | src/user.rs:208-259 | on success no program header is bad, every address one of them asks for is loaded, with the file's byte or zero as that header says where no other asks for it, the pages hold exactly the loadable segments, loaded in order, all open to user code, and the entry point is the header's; fails only for a bad header, a bad segment or without frames |
| `Loader.PlacedWritable` | src/user.rs:277-290 | user code reaches every loaded page, and can write it exactly when the tables above it are entered for writing |
| `Loader.UserRegions.SysMmap` | src/syscall.rs:167-205 | zeroed pages at addresses nobody had before, as many as the size needs and no more; the range is reserved even when mapping fails; bad sizes change nothing |
| `Loader.UserRegions.MapUserStack` | src/user.rs:316-336 | sixteen zeroed pages below the old mark, two unmapped ones below them |
| `Scheduling.ScheduleOwned` | src/scheduler.rs:312-368 | scheduling restores ownership on a processor whose task has stopped running, when all others are settled |
| `Scheduling.ScheduleSound` | src/scheduler.rs:312-368 | scheduling keeps tasks unshared exactly when it does not choose one that is current elsewhere |
| `Scheduling.StepSound` | src/scheduler.rs:202-368 | so does every lock region: wake, schedule, mark dead, park, key, spawn |
| `Scheduling.RunSound` | src/scheduler.rs:202-368 | over every interleaving of lock regions tasks are unshared at every point exactly when no step clashes |
| `Scheduling.StepOwned` | src/scheduler.rs:202-368 | every lock region but parking keeps: no task current on two processors, running tasks exactly the live ones current or deferred, deferred tasks current nowhere |
| `Scheduling.RunOwned` | src/scheduler.rs:202-368 | so does every run of lock regions in which no parking is disturbed, at every point but between parking and scheduling |
| `Scheduling.OneProcessor` | src/scheduler.rs:312-368 | in such a state a task current somewhere is held by that processor only |
| `Scheduling.RunningExactly` | src/scheduler.rs:312-368 | the running tasks are exactly the live ones that are current or deferred somewhere |
| `Scheduling.ScheduleTask` | src/scheduler.rs:312-368 | scheduling changes a task's state only by publishing a deferred one or starting a ready one |
| `Scheduling.StepDead` | src/scheduler.rs:232-241 | a dead task stays dead in every lock region |
| `Scheduling.RunDead` | src/scheduler.rs:232-241 | and in every run |
| `SchedulerRuns.StepSleeping` | src/scheduler.rs:245-290 | a sleeping task is left alone until a waking at or past its deadline and is ready after it |
| `SchedulerRuns.RunSleeping` | src/scheduler.rs:245-290 | the same over every run that shares no task: asleep before the first such waking, ready right after it |
| `SchedulerRuns.StepListening` | src/scheduler.rs:259-305 | a task that waits for input is left alone until a key interrupt and is ready after it |
| `SchedulerRuns.RunListening` | src/scheduler.rs:259-305 | the same over every run that shares no task |
| `SchedulerRuns.ParkedStays` | src/syscall.rs:77-100 | parking puts the calling task to sleep until its tick or makes it wait for input, and the scheduling that follows leaves it so |
| `SchedulerRuns.SpawnedFresh` | src/scheduler.rs:202-229 | spawning takes the lowest unused slot for a ready task that waits for nothing, on a stack of its own, run by nobody, and changes nothing else; without an unused slot nothing changes |
| `SchedulerRuns.StepFresh` | src/scheduler.rs:202-368 | in every lock region a new task stays as it is or is made current with the context on its own stack |
| `SchedulerRuns.LowestStarts` | src/scheduler.rs:146-154 | a new task is started by the next processor that schedules with no ready task in a lower slot |
| `SchedulerRuns.RunSpawned` | src/scheduler.rs:202-368 | over every run that shares no task, a task that was spawned stays ready on its own stack until a scheduling starts it there |
| `SchedulerRuns.StepWakeOk` | src/scheduler.rs:245-305 | every blocked task keeps exactly one way to be woken, for deadlines other than zero |
| `SchedulerRuns.RunWakeOk` | src/scheduler.rs:245-305 | at every point of every run each blocked task waits for exactly one thing |
| `SchedulerRuns.StepStuck` | src/scheduler.rs:275-290 | a sleep to tick zero is never woken |
| `SchedulerRuns.TickExact` | src/syscall.rs:91-99 | the tick is the deadline exactly when the clock does not overflow, and is zero exactly when the sum is 2^64 |
| `SchedulerRuns.SplitBlocking` | src/syscall.rs:77-81 | a run from an owned state, with a key between a task's parking and its processor's scheduling, that ends with the task current on two processors |
| `SchedulerRuns.TurnTick` | src/scheduler.rs:312-368 | a timer tick hands the processor from one of two runnable tasks to the other |
| `SchedulerRuns.Alternate` | src/scheduler.rs:312-368 | two runnable tasks in the lowest slots alternate strictly over every run of ticks |
| `SchedulerRuns.NeverChosen` | src/scheduler.rs:146-154 | a third task that is ready stays ready and is never chosen in such a run, however long |
| `StackHandoff.FramesAfter` | src/scheduler.rs:312-368 | the scheduler returns a context on the stack of the task it made current |
| `StackHandoff.MoveSafe` | src/scheduler.rs:312-368 | every move without blocking, each lock region one, keeps each processor on a stack that no other one is on |
| `StackHandoff.RunSafe` | src/scheduler.rs:312-368 | in every run without blocking calls no two processors are ever on one kernel stack |
| `StackHandoff.MoveApart` | src/scheduler.rs:312-368 | any move, blocking included, keeps tasks and stacks apart exactly when it takes none that is current elsewhere or whose stack is in use |
| `StackHandoff.RunApart` | src/scheduler.rs:312-368 | over every run they stay apart at every point exactly when no move does |
| `StackHandoff.PublishedLate` | src/scheduler.rs:324-329 | a running task becomes ready only when no processor is on its stack |
| `StackHandoff.BlockingSharesStack` | src/syscall.rs:77-81 | a run with a blocking call, nothing coming between, that ends with two processors on one stack |
| `Scheduler.RunQueue.PickTask` | src/scheduler.rs:146-154 | the scan returns the lowest ready slot that is not the current task |
| `Scheduler.RunQueue.InitCpu` | src/scheduler.rs:180-189 | a processor starts on its idle task, ownership holds |
| `Scheduler.RunQueue.SpawnTask` | src/scheduler.rs:202-229 | takes the lowest unused slot for a ready task that waits for nothing, with its context on its own stack; every other task is unchanged; none exactly when no slot is unused |
| `Scheduler.RunQueue.MarkCurrentDead` | src/scheduler.rs:232-241 | the dead-marking step: the task stays current, ownership is kept |
| `Scheduler.RunQueue.BlockCurrentUntil` | src/scheduler.rs:245-256 | the parking step with a deadline: no task becomes shared |
| `Scheduler.RunQueue.BlockCurrentInput` | src/scheduler.rs:259-270 | the parking step for a key: no task becomes shared |
| `Scheduler.RunQueue.WakeSleepersAt` | src/scheduler.rs:275-290 | the loop wakes exactly the tasks whose deadline has passed |
| `Scheduler.RunQueue.WakeInputWaiters` | src/scheduler.rs:294-305 | the loop wakes exactly the tasks that wait for input |
| `Scheduler.RunQueue.ScheduleOn` | src/scheduler.rs:312-368 | tables and returned context are those of the state machine |
| `Scheduler.RunQueue.Dispatch` | src/scheduler.rs:312-368 | the scheduling step: ownership is kept, and tasks stay unshared exactly when it does not clash |
| `Scheduler.RunQueue.TimerIrq` | src/interrupts.rs:43-56 | the waking step and then the scheduling step; ownership is kept |
| `Scheduler.RunQueue.SysExit` | src/syscall.rs:48-54 | the dead-marking step and then the scheduling step: the task is dead afterwards and ownership is kept |
| `Scheduler.RunQueue.SysYield` | src/syscall.rs:55-58 | the yield step: ownership is kept and the returned context is the machine's |
| `Scheduler.RunQueue.SysSleep` | src/syscall.rs:91-100 | the parking step and then the scheduling step, or a yield for no time, with the tick modulo 2^64; where the clock does not overflow the caller then sleeps until uptime and duration together |
| `Scheduler.RunQueue.SysWaitInput` | src/syscall.rs:77-81 | the parking step of a blocking read and then the scheduling step; the caller then waits for input |

## Left out

- Parsing and checking the superblock in `mount`: the model starts from a mounted volume; block sizes 1024 to 4096 are all covered although `mount` reads the right fields only for 1024.
- Volume.GeometryOk: the last group must hold a block (`GroupStart(g, g.groups - 1) < g.total`), which leaves out 1024-byte volumes with one block more than whole groups, where `mount` counts one group too many.
- Filesystem.Ext4.InsertExtent: only for trees of depth at most one whose extents are in order; one that fills a hole leaves the extents out of order, and further insertions into that tree are not modelled.
- Filesystem.Ext4.PlaceInLeaf: the same condition on the tree.
- Filesystem.Ext4.PlaceInRightmostLeaf: the same condition on the tree.
- Filesystem.Ext4.Attempt: the same condition on the tree.
- Filesystem.Ext4.AddBlock: the same condition on the tree.
- Filesystem.Ext4.WriteChunk: the same condition on the tree.
- Filesystem.Ext4.WriteFile: a write of several blocks must add blocks beyond all others only; one inside a single block may fill a hole. File block 0xFFFFFFFF is left out.
- Filesystem.Ext4.WriteFile: after `Corrupt` only the rest of the volume and the file's inode are described, not the file's tree.
- Filesystem.Ext4.MapBlock: trees of more than one index level, which the driver walks but never makes.
- Filesystem.Ext4.NodeSum: the same.
- Filesystem.Ext4.RecountBlocks: the same.
- Filesystem.Ext4.ReadFile: sizes of 2^32 blocks and more, where the driver cuts the block number.
- Filesystem.Ext4.AddDirent: directories of 2^32 - 1 blocks and more.
- Filesystem.Ext4.Create: the same condition on the parent.
- Allocator.PatchDesc: changes that leave a count inside its field; the driver would cut others. CountersFit shows that on a consistent volume there are no others.
- Filesystem.Ext4.PersistSuperCounts: counts that stay at least zero, for the same reason.
- Filesystem.Ext4.CommitAlloc: the same.
- Runs.RunOk: a file whose write ended in `Corrupt` and a directory that lost a name are no longer followed.
- Device failures: reads and writes of blocks on the device succeed.
- Unwritten extents, deeper trees, hashed directories (refused as the driver does), uninitialised group flags, corrupt images.
- Listing a directory (`read_dir`), which would repeat the lookup's scan, and the accessors and wrappers around the operations.
- VirtualMemory.Vmm.MapPageFlags: the flags must stay out of the address bits, as all callers' do; the TLB is not modelled.
- Heap.KernelHeap.Free: the address must be one of the heap's headers, as the code takes for granted.
- VirtualMemory.Vmm.Init: the boot loader's tables are taken to form a tree over frames that the bitmap does not hand out.
- Frames: the bitmap may cover at most 2^40 frames where page tables are built on it; addresses are not cut to 64 bits.
- Loader.ProgramLoader.LoadElf: segments must lie in the 48-bit space on pages that nothing is mapped on, and header arithmetic is unbounded.
- Loader.ProgramLoader.PlacePage: the same condition on the pages.
- Loader.ProgramLoader.LoadPage: the same condition on the pages.
- Loader.ProgramLoader.MapSegment: the same condition on the pages.
- Loader.UserRegions.MapUserStack: the stack's pages must be unused, as for SysMmap.
- Scheduler.RunQueue.TimerIrq: two lock regions in a row; what other processors do between them is in the runs of `Scheduling`.
- Scheduler.RunQueue.SysExit: the same.
- Scheduler.RunQueue.SysSleep: the same.
- Scheduler.RunQueue.SysWaitInput: the same.
- Scheduler.RunQueue.SpawnTask: the kernel stack is there; where it cannot be allocated `spawn_user` returns before it looks at a task.
- Names.RunCounted: a write that fails may change the mapped blocks without storing a count, so nothing is said of the inode after it.
- Loader.UserRegions.SysMmap: the region above the mark must be unused, which only other callers of the page tables could break.
- Reading the program file, the framebuffer mapping, the shell, the keyboard queue and `sys_write`.
- Frames and stacks of tasks: a saved context is named by the stack it lies on; its registers are not modelled.
- The lock and interrupt disabling are modelled as atomic steps; the memory model below them is not.
- Windows onto GPT partitions (`read_blocks`, `write_blocks`) and the accessors of the kept table.
- `ahci`, `pci`, `apic`, `smp`, descriptor tables, assembly stubs, graphics, terminal and logging.
