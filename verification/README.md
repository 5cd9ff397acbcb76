# Trinux kernel: storage stack and protocol cores

This project models, in Dafny, the parts of the Trinux kernel whose correctness is hardest to see
by reading, and proves what they promise.

- **Persistent file system.** A bitmap allocator (fs/blockfs.c) feeds the block lists of files
  (fs/ramfs.c); paths (fs/path.c, fs/vfs.c) name the nodes of a tree; the tree is serialized in
  preorder and rebuilt at boot (fs/diskfs.c). Everything ends in sectors of one disk (`SectorDisk`).
- **FAT16 driver** (fs/fat16.c). Cluster chains in a replicated table, from the table as a heap of
  linked clusters (`FatTable`) over its sectors on disk (`FatVolume`) to files (`FatFile`) and the
  root directory (`FatDir`).
- **Producer/consumer protocols.** The in-memory pipe (fs/pipe.c) and the two cycle-bit rings of the
  xHCI driver (drivers/xhci.c), each as a step relation over all interleavings.
- **Small cores.** Byte access to the raw disk (fs/devfs.c), the Internet checksum
  (drivers/net.c), and `elf_execve` (kernel/elf.c).

## How it is built

Code that changes state in place is a class or a method with loops, proved against a
specification: a function or a predicate on plain values. The properties are then lemmas about these
values. `FileState`, `Runs`, `FatTable`, `PipeProtocol`, `CommandRing` and `EventRing` hold the step
relations and the theorems about whole runs; `RamFs`, `Vfs`, `DiskFs`, `FatVolume`, `FatFile`, `FatDir`, `Pipes`
and `Elf` hold the code that takes those steps.

A state of `Runs` is a running system together with every byte of its disk: an operation may change
the data area, a sync the snapshot and the bitmap, a write to `/dev/sda` whatever it names, and a boot has nothing
but these bytes to go by. `Machine` is the other half: from the first power-on, each call of the code (writing,
creating, removing, truncating, changing attributes, `sda_write`, `diskfs_save`, and power-off followed by boot)
extends the run that ends in its system and disk by the events it stands for. The theorems come on two levels.
`Held` (`Shapes`) is what all calls keep even after names have collided: nodes hang below the root without
cycles, and blocks are owned exactly. `Good` adds that sibling names are distinct.

Main results, by module:

| result | where |
|---|---|
| after a sync, power off, `blockfs_init` and `diskfs_load` a user sees the same tree if and only if it has at most 16384 nodes, and the same bytes if and only if block storage is in use or no file needs it | `Remount.SyncAndRemount`, `Remount.SyncAndRebootTree`, `Reboot.SyncAndReboot` |
| every node is found under its path again if and only if there are at most 16384; of a larger tree, and whether or not its names are distinct, a path is kept if and only if fewer than 16384 nodes come before its node | `Remount.AllKeptIff`, `Remount.TreeKeptIff`, `Remount.KeptPaths` |
| over all runs of operations, raw disk writes, syncs and crashes, each with a boot up to `devfs_init`: blocks are owned exactly in every state if and only if every boot finds the bitmap of the tree it loads, and every state is good if and only if every step is safe; when a crash is safe: if and only if | `Runs.RunHeld`, `Runs.RunGood`, `Runs.CrashIff`, `Runs.CrashFlushed`, `Remount.RebootExact`, `Devices.PopulatedIff` |
| no file operation touches the bytes of the last sync: its image is on the disk at any later point if writes to the raw disk spare it, and they keep it if and only if they do | `Runs.ImageStays`, `Runs.DiskBits`, `DiskState.PokeImage`, `BlockStore.BlockLands` |
| the code takes these steps | `Machine.Write`, `Machine.SdaWrite`, `Machine.Sync`, `Machine.CrashAndBoot` and the other methods of `Machine` |
| what a crash brings back: paths and attributes of the last sync, the bytes that its blocks hold now, and files untouched since as they were | `Runs.CrashFinds`, `Runs.CrashAddsDevices`, `Runs.SyncedFileSurvives` |
| when `diskfs_save` succeeds, down to the doubling of its buffer: if and only if | `DiskFs.Save` |
| disk-backed files refine flat byte arrays, with separation, and never truncated ones hold zeros behind their end | `FileState.DiskWriteRefines`, `FileState.DiskWriteSeparation`, `FileState.RunZeroTail` |
| blocks are owned exactly, over all runs | `FileState.RunOwnership` |
| parsing undoes serialization; the cut at 16384 nodes is the first 16384 in preorder | `SnapshotFormat.ParseImage`, `Preorder.PreTake` |
| the layout is safe for every disk size accepted | `Layout.LayoutSafe` |
| `vfs_resolve(vfs_get_path(n)) == n` in every state of a run, and when a run keeps the tree: if and only if; relative paths lead where their components lead | `Vfs.RunResolves`, `Vfs.RunTree`, `Vfs.RelativeMeans` |
| when a write, a creation and a removal succeed: if and only if | `RamFs.RamFs.Write`, `Vfs.MakeAt`, `Vfs.CreateFile`, `Vfs.Delete` |
| what a load does with any disk, whatever is on it | `DiskFs.Load`, `DiskFs.SavedLoads`, `DiskFs.ReadOneWay` |
| FAT chains stay acyclic, disjoint and accounted for, over all runs | `FatTable.RunForest` |
| FAT16 read after write, with frame inside and outside the partition | `FatFile.FatFiles.WriteThenRead`, `FatFile.StoredMeans`, `FatFile.OtherFile`, `FatVolume.InPartition` |
| pipes are first in, first out under every interleaving, and never deadlock | `PipeProtocol.RunFifo`, `PipeProtocol.RunDelivers`, `PipeProtocol.CallsEnd` |
| cycle-bit rings lose, repeat and reorder nothing; the exact bound | `CommandRing.RunFifo`, `CommandRing.StallsWithoutRoom`, `EventRing.RunInOrder` |
| `elf_execve` is all or nothing, and the new program finds its segments and arguments | `Elf.Process.Execve`, `Elf.ImageInPlace`, `Elf.ArgumentsArrive` |

Some properties one would expect are false of the code. The code is modelled as it is; an input that
shows the failure and the exact condition under which the property holds are proved instead.

| what fails | when it holds | where it fails |
|---|---|---|
| a sync that reports success has saved the bitmap: `diskfs_save` ignores a flush that finds no memory, and after a boot two files can get one block | `Remount.SyncAndRebootTree`, `Remount.RebootExact` | `Witness.LostFlush` |
| saving keeps every file: the first 16384 nodes in preorder are saved | `Remount.AllKeptIff`, `Remount.TreeKeptIff` | `WitnessLimit.FileLost` |
| blocks of files that were cut off are free again | `Remount.ExactBeyondLimit` | `WitnessLimit.BlockLost` |
| boot keeps the tree: `devfs_init` makes its nodes without looking, and the sync before has saved them | `Devices.PopulatedIff`, `Runs.CrashFlushed` | `WitnessBoot.FirstBoot`, `Runs.NextBoot`, `Devices.LoadedHides` |
| what was synced stays on the disk: `/dev/sda` gives write access to the snapshot, too | `DiskState.PokeImage`, `Runs.SavedIsLastSync` | `DiskState.SuperblockLost` |
| a crash brings back the bytes of the last sync: blocks are written through, lists are not | `Runs.CrashFinds` (its blocks hold the same bytes), `Runs.SyncedFileSurvives` | `Witness.CrashMixes` |
| a write behind the end of a file leaves zeros in the gap | `FileState.GapIsZero`, `FileState.RunGapIsZero` | `Witness.StaleByte` |
| the same on FAT16: the gap shows what the clusters held | `FatFile.GapIsZero` | `WitnessFat.DeletedBytesReturn` |
| creation keeps the tree and finds the node again: names of 64 bytes and more are cut, and creating "/" makes a child of that name | `VfsTree.CreateIff`, `Vfs.MakeAt`, `Vfs.NewNodeResolves` | `VfsTree.NamesCollide` |
| `measure_node` predicts the length of the image: writing to a directory gives it blocks | `Persist.MeasureIff` | `Witness.DirectoryWritten` |
| writing to a FAT16 file keeps its directory entry right: a first cluster is never written back | `FatDir.ExtendedDirIff`, `FatDir.RootDir.WriteFile` | `FatDir.FirstClusterLost`, `FatDir.FirstClusterFree` |
| an 8.3 name that was created is found again | `FatDir.NewEntryFound` | `FatDir.DeletionMarkLost` |
| a name that was stored in 8.3 form is shown as it was | `FatDir.NameRoundTrip` | the same lemma |
| a pipe lives until both ends are closed | `Pipes.FreedWithLastEnd` | `Pipes.DoubleClose` |
| a transfer ring never stalls | `CommandRing.StallsWithoutRoom` | `CommandRing.OneTooMany` |
| the 16-bit cluster size is exact | `FatVolume.ClusterSize16` | 128 sectors per cluster, in the same lemma |
| the arguments of `elf_execve` stay inside the user stack | `Elf.InsideStack` | `Elf.ArgumentTooLong` |
| `inet_checksum` is the checksum of RFC 1071 | `Checksum.RightWithoutWrap`, `Checksum.LengthBoundExact` | `Checksum.WrongChecksum` |

Where code and comments disagree the code is followed: the header of fs/fat16.c announces a function
that writes a file's size back to its directory entry, and the file has none; the model has none
either.

## Model

| member | source | states |
|---|---|---|
| `SectorDisk.Disk.Read` | drivers/ata.c:224-237 | reading sectors, with an 8-bit count of which 0 means 256, returns the matching slice of the flat disk image, and fails exactly outside the disk |
| `SectorDisk.Disk.Write` | drivers/ata.c:239-252 | writing sectors, with the same counts, splices exactly those bytes into the flat image; outside the disk nothing changes |
| `RawDisk.SdaRead` | fs/devfs.c:88-127 | the result is the requested slice of the flat disk image, clamped at the end of the disk, for every alignment and mix of fast and slow path |
| `RawDisk.SdaWrite` | fs/devfs.c:129-166 | exactly the clamped byte range is replaced by the buffer; every other byte of the disk is unchanged |
| `RawDisk.Clamp` | fs/devfs.c:88-107 | how many bytes of a request lie on the device: all of them, or those up to its end |
| `RawDisk.UpdateSector` | fs/devfs.c:150-162 | a read-modify-write of part of a sector is a splice into the flat image |
| `RawDisk.WriteThenRead` | fs/devfs.c:88-166 | what is written at an offset is what is read there, and bytes outside the request keep their value |
| `Layout.PlanFits` | fs/blockfs.c:51-72 | which disk sizes are accepted, that no 32-bit computation wraps, that there is a bitmap bit for every block, and that nothing is wasted: less than a block is left over, and no byte or sector of the bitmap is more than all free sectors would need |
| `Layout.TightUnique` | fs/blockfs.c:51-72 | these bounds determine the geometry |
| `Layout.OneGigabyte` | fs/blockfs.c:51-72 | in numbers: 1 GiB has 241656 blocks from sector 32827 on, and its snapshot starts at sector 1966080 |
| `Layout.BlockLbaExact` | fs/blockfs.c:131-145 | the 32-bit sector number of a block is the exact one |
| `Layout.RegionsApart` | fs/blockfs.c:51-72 | boot reserve, bitmap, any block and any snapshot that is accepted are pairwise disjoint and on the disk |
| `Layout.BlocksApart` | fs/blockfs.c:131-145 | different blocks occupy different sectors |
| `Layout.LayoutSafe` | fs/diskfs.c:67-84 | for every 32-bit disk size accepted, all regions and all blocks are pairwise disjoint and inside the disk |
| `Layout.SnapshotBaseInRange` | fs/diskfs.c:67-84 | the snapshot starts on the disk for every size; it has the last 64 MiB, or on a small disk the last quarter, at least one sector |
| `Bitmap.PutBitTest` | fs/blockfs.c:37-39 | setting or clearing a bit is seen by testing that bit and by no other test |
| `Bitmap.BitValues` | fs/blockfs.c:37-39 | which bit of a byte stands for which block |
| `Bitmap.BitsPut` | fs/blockfs.c:37-39 | a bit operation on the byte array is one update of the sequence of truth values |
| `Bitmap.CountUpdate` | fs/blockfs.c:107-129 | how one update changes the number of set bits |
| `Bitmap.NoneFree` | fs/blockfs.c:107-119 | the count reaches the number of blocks exactly when every bit is set |
| `BlockStore.BlockFs.constructor` | fs/blockfs.c:45-105 | the allocator state after boot is the bitmap found on the disk, with the matching used count |
| `BlockStore.BlockFs.Alloc` | fs/blockfs.c:107-119 | the lowest free block is returned and marked; nothing else changes; failure only when no block is free |
| `BlockStore.BlockFs.Free` | fs/blockfs.c:121-129 | exactly that block becomes free; for out-of-range and free blocks nothing changes |
| `BlockStore.BlockFs.ReadBlock` | fs/blockfs.c:131-137 | the contents of the block, or failure out of range |
| `BlockStore.BlockFs.WriteBlock` | fs/blockfs.c:139-145 | exactly that block changes; the bitmap and all other blocks stay, and so do all bytes of the disk outside the data area |
| `BlockStore.BlockLands` | fs/blockfs.c:139-145 | every block lies on the disk at the sectors the code computes; writing it there changes that block, no other block, and neither boot reserve, bitmap nor snapshot |
| `BlockStore.BlockFs.FlushBitmap` | fs/blockfs.c:147-168 | the bitmap sectors hold the bitmap, zero-padded, and no block changes |
| `BlockFile.Grow` | fs/ramfs.c:23-44 | a list grows by fresh zeroed blocks that no list held, if and only if as many are free as it lacks; when the disk is full it keeps those it got, and without block storage it stays; outside the data area the disk stays |
| `BlockFile.GrownContent` | fs/ramfs.c:23-44 | the flat contents of a grown list are the old contents followed by zeros |
| `BlockFile.ReadSpan` | fs/ramfs.c:46-70 | reading block by block returns the slice of the flat contents |
| `BlockFile.WriteSpan` | fs/ramfs.c:72-102 | writing block by block with read-modify-write splices the buffer into the flat contents; outside the data area the disk stays |
| `FileState.DiskWriteRefines` | fs/ramfs.c:72-102 | a write to a disk-backed file is a write to a flat byte array, also behind the end, where the gap shows what the kept blocks hold; a failed write is invisible |
| `FileState.GapIsZero` | fs/ramfs.c:72-102 | the gap of a write behind the end reads as zeros if and only if the kept capacity holds zeros there |
| `FileState.RunZeroTail` | fs/ramfs.c:23-146 | in every state of every run a disk-backed file that was never truncated holds zeros behind its end |
| `FileState.RunGapIsZero` | fs/ramfs.c:72-102 | so a write behind its end leaves zeros in the gap |
| `FileState.BlocksSeparate` | fs/ramfs.c:72-102 | a write leaves the blocks of every other node alone, whatever its type |
| `FileState.TruncatedBytesReturn` | cpu/syscall.c:261-275 | after a truncation, a write behind the new end brings the old bytes before it back |
| `Witness.StaleByte` | fs/ramfs.c:72-102 | on every disk that boot accepts, a run of the whole system at whose end a file, truncated and written at offset 1, reads 7, 9 and not 0, 9 |
| `FileState.DiskWriteSeparation` | fs/ramfs.c:72-102 | no other file changes, neither its node nor its bytes |
| `FileState.DiskWriteOwnership` | fs/ramfs.c:23-44 | block ownership is exact after a write, also after one that ran out of space half-way |
| `FileState.CreateOwnership` | fs/ramfs.c:168-194 | creating a node keeps block ownership exact |
| `FileState.RemoveOwnership` | fs/ramfs.c:196-230 | removing a node gives back exactly its blocks |
| `FileState.StepOwnership` | fs/ramfs.c:23-230 | every operation keeps: set bits are the disjoint union of the block lists, and the used count is their total length |
| `FileState.RunOwnership` | fs/ramfs.c:23-230 | block ownership is exact in every state of every run |
| `FileState.StoredName` | fs/ramfs.c:168-194 | a stored name is the first 63 bytes of the given one, so the given one exactly up to 63 bytes |
| `RamFs.RamFs.EnsureBlocks` | fs/ramfs.c:23-44 | succeeds if and only if the list is long enough, or there is memory and as many blocks are free as it lacks; the node owns the blocks asked for, or all that were left; nothing else changes, nor does the disk outside the data area |
| `RamFs.RamFs.DiskfileWrite` | fs/ramfs.c:72-102 | takes the disk-write step: all bytes or none, and succeeds under exactly that condition; outside the data area the disk stays |
| `RamFs.RamFs.DiskfileRead` | fs/ramfs.c:46-70 | for a node of any type, the slice of its contents that the request covers |
| `RamFs.RamFs.Read` | fs/ramfs.c:106-119 | the slice of the contents, RAM-backed and disk-backed alike, and for nodes of any type |
| `RamFs.RamFs.Write` | fs/ramfs.c:121-146 | promotes an empty file to disk when possible and takes one write step. It succeeds if and only if the bytes fit what the file has, or there is memory and, for a file on disk, as many blocks are free as it lacks; the invariant is kept, and outside the data area the disk stays |
| `RamFs.Lacking` | fs/ramfs.c:75-77 | how many blocks a list lacks: with them it holds all bytes, with one less it does not |
| `RamFs.Clip` | fs/ramfs.c:46-70 | a read returns the bytes from its offset on, as many as asked for or up to the end of the file, and none behind it |
| `RamFs.RamFs.CreateNode` | fs/ramfs.c:168-194 | takes the creation step, or changes nothing when the parent is full or the heap is |
| `RamFs.RamFs.RemoveNode` | fs/ramfs.c:196-230 | takes the removal step, and on a system without block storage unlinks the node and gives back nothing; which error the root, a directory with entries and an unlisted node get |
| `RamFs.FindChild` | fs/ramfs.c:196-230 | the index of the node among the children of its parent |
| `RamFs.ShiftOut` | fs/ramfs.c:196-230 | the shift loop removes exactly one entry and keeps the order of the others |
| `SnapshotFormat.ParseEncodedPayload` | fs/diskfs.c:390-420 | parsing the payload undoes encoding it, for inline bytes and block lists |
| `SnapshotFormat.ParseEncoded` | fs/diskfs.c:355-423 | parsing a record undoes encoding it, wherever it lies |
| `SnapshotFormat.ParseImage` | fs/diskfs.c:355-423 | every record of an image parses, each at the offset where the previous one ended |
| `SnapshotFormat.ParseSuperblock` | fs/diskfs.c:320-350 | the mark "MKFS", version 2 and the two counts read back |
| `SnapshotFormat.RecordBytes` | fs/diskfs.c:123-150 | which word, name or block number stands at which byte of a record |
| `SnapshotFormat.ParseMeans` | fs/diskfs.c:355-420 | which records the loader accepts, for any bytes |
| `SnapshotFormat.ParseFields` | fs/diskfs.c:355-420 | and what it reads of them, byte by byte |
| `Preorder.ParentsFirst` | fs/diskfs.c:123-158 | every record names an earlier one as its parent |
| `Preorder.PreTake` | fs/diskfs.c:123-158 | cutting the listing at a limit is listing the tree of the first nodes in preorder |
| `Preorder.MeasureIsLength` | fs/diskfs.c:184-197 | the serialized records are at least as long as `measure_node` predicts, and exactly as long if and only if nothing but files carries a payload |
| `TreeImage.RecordMade` | fs/diskfs.c:376-387 | when a record of any image becomes a node, and how a root without a name is called |
| `TreeImage.RestoreMeta` | fs/diskfs.c:390-420 | restoring a record gives a sound node whose saved form is the record, up to an empty block list |
| `TreeImage.LoadForest` | fs/diskfs.c:355-423 | loading the listing of a forest hangs exactly that forest, in order, below its parent and touches no other node |
| `TreeImage.LoadTree` | fs/diskfs.c:355-423 | loading the listing of a tree into a wiped heap rebuilds the tree |
| `DiskFs.Buffer.Ensure` | fs/diskfs.c:95-108 | the capacity is the smallest doubling of 4096 that fits; the out-of-memory flag is set if and only if that exceeds the limit, and for good |
| `DiskFs.Buffer.Put` | fs/diskfs.c:110-117 | appends the bytes; memory runs out if and only if the grown buffer exceeds the limit |
| `DiskFs.Buffer.PutRecord` | fs/diskfs.c:123-150 | the same for the encoding of one record |
| `DiskFs.SerializeNode` | fs/diskfs.c:123-158 | appends the encoded listing of the subtree, cut at the node limit, and returns the next index; memory runs out if and only if all of it exceeds the limit |
| `DiskFs.SerializeKids` | fs/diskfs.c:150-158 | the loop over the children appends their listings in order |
| `DiskFs.BuildImage` | fs/diskfs.c:212-246 | succeeds if and only if the image is not too long and its buffer fits the limit; then it is the image of the tree with its superblock |
| `DiskFs.CapPadded` | fs/diskfs.c:243-249 | padding the image to whole sectors never asks for more memory |
| `DiskFs.Save` | fs/diskfs.c:212-287 | when it succeeds, and which error it reports otherwise: there is memory for the node array and the image, and the image fits its region; then the disk holds the image, and the bitmap of RAM if the flush found memory, its old bitmap if not; a failure changes nothing |
| `DiskFs.Flush` | fs/diskfs.c:279-281 | the flush at the end of a save, whose failure nobody sees |
| `DiskFs.ReadImage` | fs/diskfs.c:307-353 | on any disk: an image is read if and only if it is marked and announced with counts in bounds, and there is memory for it |
| `DiskFs.RebuildHeap` | fs/diskfs.c:355-423 | on any image: its records become nodes one by one, all of them or up to the first that is malformed or finds no memory, and with which error |
| `DiskFs.Load` | fs/diskfs.c:307-429 | on any disk: without the mark, or when superblock, sectors or memory do not allow it, the fresh system stays as it is; otherwise the records become nodes as above |
| `DiskFs.SavedLoads` | fs/diskfs.c:307-429 | an image that was saved is rebuilt record by record if and only if all heap requests are granted |
| `DiskFs.ReadOneWay` | fs/diskfs.c:355-423 | an image can be read in one way only |
| `DiskFs.PassCodes` | fs/diskfs.c:355-423 | which error a record gives whose parent comes later, or for which there is no memory |
| `DiskFs.BufferNeeded` | fs/diskfs.c:395-418 | a record asks for a buffer if and only if its node gets contents or blocks |
| `Reboot.NodeFromMeta` | fs/diskfs.c:123-158 | a saved form shows exactly the attributes and bytes of its node |
| `Reboot.ShowsPresents` | fs/diskfs.c:123-158 | a tree and its saved form look the same to a user |
| `Reboot.BootLoads` | fs/diskfs.c:355-423 | what boot rebuilds from a listing looks like the saved tree, cut at the node limit, over the blocks of the sync, and over no blocks if and only if no file needs them |
| `Reboot.CutShows` | fs/diskfs.c:123-158 | what was cut at the node limit looks like the whole tree if and only if it has at most 16384 nodes |
| `Reboot.ReadableWithout` | fs/ramfs.c:46-70 | over no blocks a tree looks as it did if and only if no file has bytes on disk |
| `Reboot.ReadableIff` | fs/ramfs.c:46-70 | after boot the bytes are as they were if and only if block storage is in use or no saved file has bytes on disk |
| `Reboot.Boot` | fs/blockfs.c:45-105 | boot finds the bitmap that is on the disk, its count, and all block contents |
| `Reboot.SyncAndReboot` | fs/diskfs.c:212-429 | save, loss of RAM, `blockfs_init` and load: when each reports success; same shape, order, names, types, permissions and owners, cut at the node limit, over the blocks that boot finds; same bytes if and only if block storage is in use or not needed; same bitmap if and only if the flush found memory or the disk had this bitmap already |
| `Persist.ForestSaves` | fs/diskfs.c:123-158 | every state of this shape with exact block ownership has a savable, loadable form, whether or not its names are distinct |
| `Persist.TreeAll` | fs/diskfs.c:123-158 | a condition holds of every saved record if and only if it holds of every node: the serializer visits each node |
| `Persist.TreeSize` | fs/diskfs.c:123-158 | the saved tree has as many records as there are nodes |
| `Persist.MeasureIff` | fs/diskfs.c:184-210 | `measure_node` predicts the length of the saved image if and only if no node but files has blocks |
| `Persist.OwnedIsCarried` | fs/diskfs.c:123-158 | the blocks that nodes own are the blocks that the saved tree lists |
| `Persist.MountedRuns` | fs/diskfs.c:212-287 | a tree with exact block ownership whose contents fit the kernel heap meets what saving demands |
| `Persist.HeldRuns` | fs/diskfs.c:212-287 | so does a state in which names have collided |
| `Shapes.StepShaped` | fs/ramfs.c:23-230 | every operation keeps the shape of the nodes: children are younger, point back, are at most 256 and listed once, and names fit their field, also where sibling names are equal |
| `Shapes.StepHeld` | fs/ramfs.c:23-230 | and exact block ownership with it |
| `Shapes.TreeShaped` | fs/ramfs.c:168-230 | every tree with distinct names has this shape |
| `Shapes.WalkUnique` | fs/vfs.c:153-172 | in this shape no node is found under two paths |
| `Places.SeekShown` | fs/diskfs.c:123-158 | a path leads to a node if and only if it leads to its saved form in the forest that the nodes show, with the first of equal names winning in both |
| `Places.SeekCut` | fs/diskfs.c:150-158 | among the first nodes of a listing, up to any limit, a path leads where it led if and only if fewer nodes than that come before, and nowhere otherwise |
| `Remount.LoadLinks` | fs/diskfs.c:355-423 | the loader's loop keeps all nodes connected to the root, with children that are younger, point back and are listed once |
| `Remount.TwinOf` | fs/diskfs.c:355-423 | every node of the rebuilt heap has a twin in the saved one, at the same position and, if names are distinct, under the same path |
| `Remount.TwinsDiffer` | fs/diskfs.c:355-423 | nodes at different positions have different twins |
| `Remount.RebuiltTree` | fs/diskfs.c:355-423 | the rebuilt heap is a tree with distinct sibling names and valid paths |
| `Remount.CountIsSum` | fs/blockfs.c:45-105 | if the block lists cover the set bits disjointly, the number of set bits is their total length |
| `Remount.RebuiltOwnership` | fs/diskfs.c:390-420 | blocks are owned exactly after the rebuild if the bitmap marks what the rebuilt nodes list |
| `Remount.RebootShows` | fs/diskfs.c:355-429 | whatever bitmap boot finds, and whether or not names are distinct, the rebuilt nodes are the saved ones, up to the node limit and empty block lists, and can be saved again |
| `Remount.RebootKeeps` | fs/diskfs.c:355-429 | and a tree with distinct names is one again |
| `Remount.RebootExact` | fs/blockfs.c:45-168 | after a reboot blocks are owned exactly if and only if the bitmap on the disk marks exactly the blocks of the saved tree |
| `Remount.ExactWithinLimit` | fs/diskfs.c:279-283 | up to 16384 nodes this means: the bitmap on the disk is the one at the time of the sync |
| `Remount.ExactBeyondLimit` | fs/diskfs.c:123-158 | beyond, with that bitmap, it means: no block belongs only to the part of the tree that was cut off |
| `Remount.TreeKeptIff` | fs/diskfs.c:123-158 | a reboot keeps the whole tree if and only if it has at most 16384 nodes; otherwise 16384 are left |
| `Remount.KeptPaths` | fs/diskfs.c:355-423 | for a state of any size and any names: a path leads somewhere after a reboot if and only if it did before and fewer than 16384 nodes come before its node; then to a node of the same saved form, with as many children if no more than 16384 nodes hang below the root |
| `Remount.AllKeptIff` | fs/diskfs.c:123-158 | every node is found under its path after a reboot if and only if there are at most 16384 nodes |
| `WitnessLimit.FileLost` | fs/diskfs.c:150-158 | 16385 creations on a fresh system, checked like those of `vfs_mkdir` and `vfs_create`, after which a sync and a reboot over any bitmap lose a file |
| `WitnessLimit.BlockLost` | fs/diskfs.c:150-158 | one byte is written to the file that is lost: after sync and boot over the very bitmap of the sync, block 0 is taken and no node owns it |
| `Remount.SyncAndRemount` | fs/diskfs.c:212-429 | from every state that can be saved, of any size and any names: the user finds the tree if and only if it is within the node limit, and then the bytes if and only if block storage is in use or not needed; what was a tree is one again; it can be saved again if and only if the bitmap that boot found is exact |
| `Remount.SyncAndRebootTree` | fs/diskfs.c:212-429 | within the limit, with block storage before and after: the user finds tree and bytes in the booted system as they were; it is mounted again if and only if the flush found memory or the disk already had the same bits |
| `Witness.LostFlush` | fs/diskfs.c:279-283 | on every disk that boot accepts, a run of the whole system with one failed flush, at whose end two files list the same block and one shows the other's byte |
| `Witness.CrashMixes` | fs/ramfs.c:196-230 | on every such disk, a run with a flushed sync and a safe crash, where a removed file comes back with the byte of the file that took its block |
| `Witness.DirectoryWritten` | fs/diskfs.c:184-210 | a new directory gets one byte, and the image has another length than `measure_node` predicts |
| `Witness.AcceptedBlocks` | fs/blockfs.c:51-72 | every disk that boot accepts has between 8 blocks and the invalid mark |
| `Devices.MakeDevIff` | fs/devfs.c:170-183 | making one device keeps the tree if and only if its name is not in /dev and /dev is a directory; otherwise two entries share a name, or a plain file has entries, and no later device repairs it |
| `Devices.OlderHides` | fs/devfs.c:170-183 | a taken name keeps leading to the older node |
| `Devices.LoadedHides` | fs/devfs.c:170-183 | a device whose name was loaded is made, breaks the tree and is not found |
| `Devices.MakeDevsIff` | fs/devfs.c:168-204 | the same for all devices in order, with the limit of 256 entries and with requests for memory that fail |
| `Devices.PopulatedIff` | fs/devfs.c:168-204 | `devfs_init` keeps the tree if and only if /dev holds none of the devices it makes, and is a directory if it makes any |
| `Devices.PopulatedOwnership` | fs/devfs.c:168-204 | it keeps block ownership exact |
| `Devices.PopulatedKeeps` | fs/devfs.c:168-204 | it changes the entries of /dev only, and adds nodes without blocks, whether or not names are distinct |
| `Devices.PopulatedShaped` | fs/devfs.c:168-204 | it keeps the shape of the nodes also where it breaks the tree |
| `Devices.PopulatedPaths` | fs/devfs.c:168-204 | every path still leads where it led, whether or not names are distinct; new ones name devices in /dev |
| `Devices.DeviceStays` | fs/devfs.c:168-204 | a device that is made is found in /dev afterwards |
| `Devices.MakeDevice` | fs/devfs.c:170-183 | takes that step |
| `Devices.DevfsInit` | fs/devfs.c:185-204 | makes the devices one after the other; without /dev nothing changes |
| `DiskState.ImageUnique` | fs/diskfs.c:307-423 | a disk holds at most one snapshot: what boot reads is determined by the bytes |
| `DiskState.KeptOutside` | fs/blockfs.c:139-145 | whatever is written to blocks, bitmap and snapshot on the disk stay |
| `DiskState.SyncedStore` | fs/diskfs.c:212-287 | after a sync the snapshot is on the disk, with the bitmap it flushed or the one that was there, and every block holds what it held |
| `DiskState.PokeImage` | fs/devfs.c:129-166 | a write to the raw disk keeps the snapshot if and only if it writes over its bytes what they are |
| `DiskState.PokeBitmap` | fs/devfs.c:129-166 | the same for the bitmap |
| `DiskState.PokeBlock` | fs/devfs.c:129-166 | and for each block |
| `DiskState.SuperblockLost` | fs/devfs.c:129-166 | one zero byte written at the start of the snapshot destroys it |
| `Runs.StepKeepsHeld` | kernel/kernel.c:217-249 | every step keeps the shape of the nodes, and exact block ownership if and only if it is not a boot over a bitmap that belongs to another tree |
| `Runs.RunHeld` | kernel/kernel.c:217-249 | blocks are owned exactly in all states of a run if and only if every boot finds the bitmap of the tree it loads, whatever happens to names; then the disk holds the image of the last sync until a write to the raw disk changes it |
| `Runs.StepGood` | kernel/kernel.c:217-249 | a step from a good state keeps disk, running system and last sync in agreement, and leaves a good state if and only if it is safe |
| `Runs.RunGood` | kernel/kernel.c:217-249 | tree and ownership invariants hold in all states of a run of operations, raw disk writes, syncs and crashes if and only if every step is safe |
| `Runs.SavedIsLastSync` | fs/diskfs.c:212-287 | the history field of a state names the last sync if and only if no write to the raw disk has changed its image |
| `Runs.ImageStays` | fs/ramfs.c:23-230 | whatever operations followed the last sync, its image is on the disk byte by byte, if writes to the raw disk spare it |
| `Runs.DiskBits` | fs/blockfs.c:147-168 | the bitmap bytes that a crash finds on the disk are those of the last sync if its flush found memory, and those before it if not, if writes to the raw disk spare them |
| `Runs.CrashFinds` | fs/diskfs.c:355-423 | every path of the last sync with fewer than 16384 nodes before its node leads, after the crash, to a node with the attributes of then; its bytes are what its blocks of then hold on the disk now |
| `Runs.CrashAddsDevices` | kernel/kernel.c:234-249 | every other path that leads somewhere after a crash names a device |
| `Runs.CrashIff` | kernel/kernel.c:217-249 | if the last sync saved a tree, of any size, the crash leaves a good state if and only if the bitmap on the disk marks the blocks that were saved, and the loaded /dev holds none of the devices |
| `Runs.CrashFlushed` | kernel/kernel.c:217-249 | for at most 16384 nodes, with block storage before and after: if and only if the flush of that sync found memory or the disk had its bits already, and /dev held none of the devices |
| `Runs.SameDevices` | fs/diskfs.c:355-423 | for at most 16384 nodes, the loaded /dev holds a device if and only if the saved one did |
| `Runs.NextBoot` | kernel/kernel.c:217-249 | a device that the first power-on or a boot made, and the next sync saved, breaks the tree at the next boot, for at most 16384 nodes |
| `WitnessBoot.FirstBoot` | kernel/kernel.c:217-249 | on every disk that boot accepts: /dev is made, then the first power-on, sync and boot: good before the boot, two entries of one name after it, although its bitmap is that of the sync |
| `Runs.SyncedFileSurvives` | fs/ramfs.c:72-102 | a file whose blocks nothing has touched since the last sync, and with fewer than 16384 nodes before it, looks after a crash as it did then |
| `Runs.UntouchedBytes` | fs/ramfs.c:72-102 | an event that neither writes nor removes a node, nor writes over its blocks on the raw disk, leaves it its blocks and their bytes, up to the boot after a crash |
| `Runs.CanBoot` | fs/diskfs.c:355-423 | a good state that was saved can be loaded over any bitmap and blocks |
| `Machine.Write` | fs/ramfs.c:121-146 | a write is one or two operations of the run that ends in the system and its disk, and succeeds under the exact condition of `RamFs.RamFs.Write` |
| `Machine.MakeAt` | fs/vfs.c:174-196 | so is a creation: the checked creation, then its attributes; a refusal, under the exact condition of `Vfs.MakeAt`, is none |
| `Machine.CreateFile` | fs/vfs.c:198-230 | so is `vfs_create`, for which opening a file that exists is no step |
| `Machine.Remove` | fs/ramfs.c:196-230 | so is a removal |
| `Machine.Truncate` | cpu/syscall.c:261-275 | so is setting the size to 0 |
| `Machine.SetAttr` | fs/vfs.c:61-86 | so is a change of permissions and owner |
| `Machine.SdaWrite` | fs/devfs.c:129-166 | a write to the raw disk of a running system is that event: allocator and node table stay, files show what was written over their blocks, and the image of the last sync counts as lost if and only if it changed |
| `Machine.Sync` | fs/diskfs.c:212-287 | a save that reports success is a sync, and one that fails is nothing |
| `Machine.PowerOn` | kernel/kernel.c:217-242 | the first power-on starts a run, on a disk whose bitmap is empty |
| `Machine.FirstDevices` | kernel/kernel.c:244-246 | `devfs_init` after it is one event |
| `Machine.CrashAndBoot` | kernel/kernel.c:217-249 | power off in any state of a run whose last image is intact, then boot with the disk only: if the load reports success it is a boot of the run |
| `Machine.LoadsImage` | fs/diskfs.c:307-429 | what a load that reports success made of a disk is what any reading of an image there gives |
| `Machine.PowerCycle` | kernel/kernel.c:217-249 | the code from sync to `devfs_init`: mounted again if and only if the bitmap is exact and the loaded /dev holds none of the devices |
| `Path.Normalize` | fs/path.c:11-72 | the loops compute the component-stack meaning of base and path |
| `Path.NormalMeans` | fs/path.c:11-72 | up to 511 bytes the result has the components of the base, unless the path is absolute, and then of the path, resolved in order |
| `Path.CombineReads` | fs/path.c:16-29 | the work buffer holds base, slash and path, or the absolute path, up to 511 bytes; a slash at the end of the base is not doubled |
| `Path.SplitConcat` | fs/path.c:35-49 | a slash separates components |
| `Path.ResolveDots` | fs/path.c:51-60 | "." stays, ".." goes up and stops at the root, any other component goes down, to depth 64 |
| `Path.FromDirectory` | fs/path.c:11-72 | from a directory a name gives its path below it, ".." its parent, "." itself |
| `Path.ResolveIsCancel` | fs/path.c:30-60 | pushing and popping is the same as cancelling components from the right |
| `Path.SplitRender` | fs/path.c:62-72 | splitting the rebuilt path gives the components back |
| `Path.NormalIsCanonical` | fs/path.c:11-72 | the result is absolute, without empty, "." or ".." components, and is the rendering of its components |
| `Path.NormalOfRender` | fs/path.c:11-72 | what normalization does to a canonical path, also beyond 64 components |
| `Path.NormalIdempotent` | fs/path.c:11-72 | normalizing again changes nothing |
| `Path.BasenameDirname` | fs/path.c:74-114 | last component and rest of a non-root path; joining them gives it back |
| `Path.PartsOfPath` | fs/path.c:86-114 | last component and rest of any path: what follows the last slash, or "/"; what comes before it, or "." |
| `Path.JoinsOnce` | fs/path.c:74-84 | joining puts one slash between the parts, whether or not they bring some |
| `VfsTree.WalkComps` | fs/vfs.c:153-172 | following the names of a node from the root leads to the node |
| `VfsTree.WalkFinds` | fs/vfs.c:153-172 | what a walk finds lies exactly at the walked position |
| `VfsTree.FindFirst` | fs/ramfs.c:155-164 | of several entries of one name the first is found |
| `VfsTree.CreateKeeps` | fs/ramfs.c:168-194 | creating a checked name keeps the tree: links agree, no cycles, sibling names distinct |
| `VfsTree.RemoveKeeps` | fs/ramfs.c:196-230 | removing an empty node keeps the tree |
| `VfsTree.LongNames` | fs/ramfs.c:168-194 | a new name is found again if and only if it fits 63 bytes; siblings stay distinct if and only if the stored name was not there |
| `VfsTree.CreateIff` | fs/vfs.c:174-230 | after the checks of the code, creation keeps the tree if and only if the path is not the root and the stored name is free |
| `VfsTree.NamesCollide` | fs/ramfs.c:168-194 | two different names that pass all checks and are stored as the same one: the second creation breaks the tree |
| `Vfs.StepTree` | fs/vfs.c:174-255 | an operation keeps the tree if and only if it is not an unsafe creation |
| `Vfs.RunTree` | fs/vfs.c:174-255 | all states of a run are trees if and only if it has no unsafe creation |
| `Vfs.RunInvariant` | fs/vfs.c:174-255 | every state of every run from a fresh system has exact block ownership, and is a tree unless an unsafe creation came before |
| `Vfs.ResolveOfPath` | fs/vfs.c:89-172 | resolving the path of a node gives the node, from any working directory |
| `Vfs.RelativeMeans` | fs/vfs.c:142-172 | a relative path leads where its components lead, each in turn, after those of the working directory |
| `Vfs.FromDirectory` | fs/vfs.c:142-172 | from a working directory a name leads to the child of that name if there is one, ".." to the parent and "." to itself |
| `Vfs.RunResolves` | fs/vfs.c:89-172 | the same in every state of every run without unsafe creations |
| `Vfs.NewNodeResolves` | fs/vfs.c:89-196 | a created node is found under its own path if and only if its creation was safe; a child called "/" and a second node of one stored name are not |
| `Vfs.GetPath` | fs/vfs.c:89-108 | the loop builds the path of the node |
| `Vfs.AbsNormalize` | fs/vfs.c:142-151 | the canonical absolute path meant by path and working directory |
| `Vfs.Resolve` | fs/vfs.c:153-172 | the node at that path, if there is one |
| `Vfs.MakeNode` | fs/ramfs.c:168-194 | the new node, with its attributes, is the only change; failure changes nothing |
| `Vfs.MakeAt` | fs/vfs.c:174-196 | a node is made if and only if the directory of the path exists, may be written, has room and no such name, and there is memory; the node is the only change and has exactly the attributes given; the tree is kept if and only if the path is not the root and the stored name is free; the path leads to the node if and only if it is not the root and the name is stored whole |
| `Vfs.CreateFile` | fs/vfs.c:198-230 | a path that leads somewhere is opened if it may be written, and nothing changes; otherwise a file is made under the same conditions |
| `Vfs.Existing` | fs/vfs.c:198-222 | looking up the name in the directory finds a node exactly when the path leads there; the root has no entry "/" |
| `Vfs.Delete` | fs/vfs.c:232-255 | which error is reported, or else: the path leads nowhere and exactly that node is gone, also on a system without block storage; failure changes nothing |
| `FatTable.ChainDistinct` | fs/fat16.c:159-167 | a chain that ends visits no cluster twice |
| `FatTable.ChainUnique` | fs/fat16.c:217-263 | the first cluster determines the chain |
| `FatTable.LinkedChain` | fs/fat16.c:287-299 | taking a free cluster and linking it behind a chain gives the longer chain |
| `FatTable.EndMark` | fs/fat16.c:159-167 | every mark from 0xFFF8 on ends a chain, and freeing stops there |
| `FatTable.Freed` | fs/fat16.c:159-167 | freeing terminates on every table with entries in range, also with cycles, and only ever clears entries |
| `FatTable.FreedIsCleared` | fs/fat16.c:159-167 | on a chain, freeing clears exactly the entries of the chain |
| `FatTable.GrownKeeps` | fs/fat16.c:287-299 | extending a file keeps all chains in range, acyclic, disjoint and accounted for |
| `FatTable.DroppedKeeps` | fs/fat16.c:485-507 | deleting a file keeps them too |
| `FatTable.StepForest` | fs/fat16.c:130-167 | every operation keeps the forest invariant, including free clusters plus chain lengths equal to the cluster count |
| `FatTable.RunForest` | fs/fat16.c:130-167 | the forest invariant holds in every state of every run |
| `FatTable.CreateDeleteRestores` | fs/fat16.c:452-507 | creating and then deleting a file restores the table and all chains |
| `FatVolume.ClusterSize16` | fs/fat16.c:271-271 | the 16-bit cluster size is right exactly below 128 sectors per cluster |
| `FatVolume.RegionBounds` | fs/fat16.c:171-174 | table copies lie between the reserved sectors and the root directory, clusters between it and the end of the disk |
| `FatVolume.RegionsTile` | fs/fat16.c:118-174 | table copies, root directory and clusters follow each other without a gap, from the start of the partition and its reserved sectors on |
| `FatVolume.EntryBytes` | fs/fat16.c:118-127 | an entry is two bytes, the low one first, at twice the cluster number from the start of each copy |
| `FatVolume.InPartition` | fs/fat16.c:105-114 | a disk holds a volume in a partition if and only if the bytes from the start of the partition hold it |
| `FatVolume.PartsInside` | fs/fat16.c:105-174 | entries, root directory and clusters lie between the reserved sectors and the end of the last cluster |
| `FatVolume.Volume.GetEntry` | fs/fat16.c:118-127 | the table entry of the cluster |
| `FatVolume.Volume.SetEntry` | fs/fat16.c:130-145 | the entry changes in every copy of the table, no cluster or directory byte does, and nothing outside the volume |
| `FatVolume.Volume.AllocCluster` | fs/fat16.c:148-157 | the lowest free cluster is marked as an end of chain; failure only when none is free |
| `FatVolume.Volume.FreeChain` | fs/fat16.c:159-167 | the loop terminates on every in-range table and computes `Freed`; nothing outside the volume changes |
| `FatVolume.Volume.WriteCluster` | fs/fat16.c:306-326 | the bytes go to their place in the cluster; all else on the volume is unchanged, and all bytes outside it |
| `FatVolume.Volume.ReadCluster` | fs/fat16.c:240-258 | the slice of the cluster |
| `FatFile.StoredMeans` | fs/fat16.c:266-343 | after storing a prefix, those bytes are in place and every byte the file had before is unchanged elsewhere |
| `FatFile.OtherFile` | fs/fat16.c:266-343 | the chain and the bytes of every other file are unchanged |
| `FatFile.FatFiles.Extend` | fs/fat16.c:287-299 | a chain grows by one free cluster, or the volume is full and nothing changes |
| `FatFile.FatFiles.Seek` | fs/fat16.c:284-299 | reaches the cluster of the offset, extending the chain as needed |
| `FatFile.FatFiles.StoreAll` | fs/fat16.c:301-336 | stores a prefix of the buffer across clusters; a proper prefix only when no cluster is free and the chain is used up |
| `FatFile.FatFiles.NodeWrite` | fs/fat16.c:266-343 | a prefix of the buffer is stored, other chains and all bytes outside the volume are untouched, the size is the maximum, and a short write means that no cluster is free and the chain ends there |
| `FatFile.FatFiles.NodeRead` | fs/fat16.c:217-263 | the slice of the file that the request covers |
| `FatFile.FatFiles.WriteThenRead` | fs/fat16.c:217-343 | reading back at the offset returns exactly the bytes that the write reported; every other byte the file had, every byte of any other file, and every byte outside the volume is unchanged; bytes between the old end and the offset are what the clusters held |
| `FatFile.GapIsZero` | fs/fat16.c:266-343 | the gap of a write behind the end reads as zeros if and only if the clusters held zeros there |
| `WitnessFat.DeletedBytesReturn` | fs/fat16.c:266-507 | on every volume with a free slot and a free cluster: a file is created, filled and deleted, and the next new file, written only behind those bytes, shows them |
| `FatDir.To83` | fs/fat16.c:193-212 | the 11 bytes of the 8.3 name |
| `FatDir.NameRoundTrip` | fs/fat16.c:176-212 | formatting the stored form of a name gives the name back if and only if it has no capitals and no spaces, at most 8 characters before its first dot and, if it has one, 1 to 3 behind it |
| `FatDir.StoredParts` | fs/fat16.c:193-212 | a name of two parts is stored in capitals, each part padded with spaces, without the dot |
| `FatDir.CaseBlind` | fs/fat16.c:193-212 | spellings of a name that differ in case only are stored alike |
| `FatDir.EntryFields` | fs/fat16.c:452-464 | which field of a new entry stands at which byte; the size is 0 |
| `FatDir.SlotBytes` | fs/fat16.c:466-480 | slots follow each other every 32 bytes; 0 and 0xE5 mark a free one |
| `FatDir.FoundUnique` | fs/fat16.c:485-507 | the search finds at most one slot |
| `FatDir.StopAbsent` | fs/fat16.c:485-507 | where the search gives up, the name is absent |
| `FatDir.NewEntryFound` | fs/fat16.c:452-507 | a new entry is found again if and only if its name does not start with the deletion mark and no earlier slot has the name |
| `FatDir.DeletionMarkLost` | fs/fat16.c:452-482 | in an empty directory of any number of sectors, a name that is only the deletion mark is stored in a slot that counts as free, and is absent |
| `FatDir.CreatedKeeps` | fs/fat16.c:452-482 | creation keeps directory and chains in step |
| `FatDir.DeletedKeeps` | fs/fat16.c:485-507 | deletion keeps directory and chains in step |
| `FatDir.ExtendedDirIff` | fs/fat16.c:266-343 | when a file grows, directory and chains stay in step if and only if it had a cluster, has none still, or has no entry |
| `FatDir.FirstClusterLost` | fs/fat16.c:485-507 | a first cluster that the directory does not know is not freed when the file is deleted |
| `FatDir.FirstClusterFree` | fs/fat16.c:266-343 | a volume with such a file, for any number of clusters and directory sectors |
| `FatDir.RootDir.WriteFile` | fs/fat16.c:266-343 | a write keeps directory and chains in step unless the file has an entry, no cluster yet, and gets one; the directory itself stays as it is |
| `FatDir.FreesOwnChain` | fs/fat16.c:498-502 | freeing from the cluster in an entry frees exactly the chain of that file |
| `FatDir.RootDir.CreateRootEntry` | fs/fat16.c:452-482 | takes the lowest free cluster and the first free slot, or changes nothing, and then one of them was missing; bytes outside the volume stay |
| `FatDir.RootDir.DeleteRootEntry` | fs/fat16.c:485-507 | deletes exactly the file found under the name; if there is none, nothing changes; bytes outside the volume stay |
| `FatDir.CreatedErased` | fs/fat16.c:452-507 | erasing a file just created leaves table, chains and slot owners as before |
| `FatDir.RootDir.CreateThenDelete` | fs/fat16.c:452-507 | creating and deleting a fresh name restores the table, the chains and every cluster |
| `PipeRing.PutAppends` | fs/pipe.c:137-142 | a byte put into the ring comes behind all others, across the wrap |
| `PipeRing.TakeRemoves` | fs/pipe.c:106-111 | the byte at the head is the oldest one |
| `PipeProtocol.StepKeeps` | fs/pipe.c:82-166 | every step of either side keeps: bytes written are bytes read followed by the ring |
| `PipeProtocol.RunFifo` | fs/pipe.c:82-166 | first in, first out in every state of every interleaving |
| `PipeProtocol.RunPrefix` | fs/pipe.c:82-166 | what was delivered is a prefix of what was sent |
| `PipeProtocol.RunDelivers` | fs/pipe.c:82-146 | what readers get is a prefix of all bytes handed to `pipe_write`, call by call, and all of it once nothing is in progress or in the ring and the reader is open; reads return no more than they ask for, and while the writer is open exactly that |
| `PipeProtocol.RunClosed` | fs/pipe.c:148-158 | an end is closed exactly when it has been closed by a call |
| `PipeProtocol.ShortRead` | fs/pipe.c:93-99 | a short read happens only at end of file, with the ring empty and everything delivered |
| `PipeProtocol.ShortWrite` | fs/pipe.c:125-131 | a write falls short only once the reader has closed, with 4096 bytes in the ring |
| `PipeProtocol.ReadProgress` | fs/pipe.c:82-115 | a step of the reader waits without effect or uses up its own work |
| `PipeProtocol.WriteProgress` | fs/pipe.c:117-146 | the same for the writer |
| `PipeProtocol.NeverBothWait` | fs/pipe.c:82-146 | reader and writer never both wait |
| `PipeProtocol.CallsEnd` | fs/pipe.c:82-146 | under every schedule two calls in progress do not hold each other up, and a call ends once the other side has closed |
| `Pipes.Pipe.ReadTurn` | fs/pipe.c:82-115 | what a read does up to its return or its next `schedule` is a sequence of reader steps |
| `Pipes.Pipe.WriteTurn` | fs/pipe.c:117-146 | what a write does up to its return or its next `schedule` is a sequence of writer steps |
| `Pipes.Pipe.BeginWrite` | fs/pipe.c:117-122 | a write fails at once if the reader has closed |
| `Pipes.Pipe.CloseEnd` | fs/pipe.c:148-158 | closing an end is the step of the protocol |
| `Pipes.Table.TypeOf` | fs/pipe.c:37-56 | a descriptor denotes an end of a pipe exactly when it encodes a slot in use |
| `Pipes.Table.Create` | fs/pipe.c:58-80 | the lowest free slot and its two descriptors; failure only when all are in use |
| `Pipes.Table.Close` | fs/pipe.c:148-166 | exactly that slot changes, and the reference count stays the number of open ends |
| `Pipes.FreedWithLastEnd` | fs/pipe.c:148-166 | a slot is freed exactly with its last end, if and only if the end being closed was open |
| `Pipes.DoubleClose` | fs/pipe.c:148-166 | closing the read end of a new pipe twice frees it under the writer |
| `Pipes.FdCodec` | fs/pipe.c:37-41 | descriptors determine slot and end |
| `CommandRing.Ring.Enqueue` | drivers/xhci.c:135-157 | the block is in its slot, with the cycle state as its lowest bit and all other fields as given; index, cycle state and Link TRB follow, and no other slot changes |
| `CommandRing.Enqueued` | drivers/xhci.c:135-157 | the same as a function of the ring, field by field |
| `CommandRing.SendKeeps` | drivers/xhci.c:135-157 | enqueuing with room keeps the correspondence between ring and queue |
| `CommandRing.PollKeeps` | drivers/xhci.c:135-157 | so does a consumer that follows the Link TRB and toggles its cycle state |
| `CommandRing.RunFifo` | drivers/xhci.c:135-157 | over any number of laps the consumer has seen the first of the blocks that were sent, each with its parameter, status and control fields |
| `CommandRing.NextSeen` | drivers/xhci.c:135-157 | while something is outstanding, one or two polls execute the next block as it was sent |
| `CommandRing.StallsWithoutRoom` | drivers/xhci.c:135-157 | the consumer stalls after an enqueue if and only if there was no room: the exact bound |
| `CommandRing.OneTooMany` | drivers/xhci.c:135-157 | a state with `ring_size - 2` outstanding that has no room |
| `EventRing.Driver.PollOnce` | drivers/xhci.c:169-205 | one poll returns the event at the dequeue index, advances it and writes the matching register value, or changes nothing |
| `EventRing.PostKeeps` | drivers/xhci.c:169-205 | a producer that does not overrun keeps the correspondence |
| `EventRing.PollKeeps` | drivers/xhci.c:169-205 | a poll returns the oldest unread event, and nothing when there is none |
| `EventRing.RunInOrder` | drivers/xhci.c:169-205 | each event is delivered exactly once, in order and with its fields, in every run |
| `EventRing.RegisterNamesNext` | drivers/xhci.c:195-198 | the register always names the next unread entry |
| `Checksum.InetChecksum` | drivers/net.c:46-54 | for every 32-bit length, the complement of the one's-complement sum of the wrapped accumulator, which is the checksum if and only if the words add up to less than 2^32 |
| `Checksum.RightWithoutWrap` | drivers/net.c:48-53 | the folded accumulator is right if and only if it has not wrapped |
| `Checksum.Fold` | drivers/net.c:52-52 | folding terminates and keeps the residue modulo 65535, with 0 only for 0 |
| `Checksum.ExampleSum` | drivers/net.c:46-54 | the sum of the example in section 3 of RFC 1071 |
| `Checksum.FoldStep` | drivers/net.c:52-52 | one fold shrinks the sum, keeps the residue and does not reach 0 |
| `Checksum.LengthBoundExact` | drivers/net.c:49-51 | no buffer of a length, even or odd, wraps the accumulator if and only if the length is at most 131074 |
| `Checksum.WrongChecksum` | drivers/net.c:46-54 | 131076 bytes of 0xFF get the checksum 1 instead of 0 |
| `Checksum.StoreAdds` | drivers/net.c:46-54 | storing a word in an aligned zero field adds it to the sum |
| `Checksum.SelfVerifies` | drivers/net.c:46-54 | a buffer that carries its computed checksum verifies, whether or not the accumulator wrapped |
| `Checksum.StoreAndVerify` | drivers/net.c:46-54 | a second computation over the sealed buffer returns 0, for every length |
| `Checksum.DetectsWordChange` | drivers/net.c:46-54 | changing one word is detected, except between 0 and 65535 |
| `ElfImage.Loaded` | kernel/elf.c:499-527 | non-overlapping segments all hold their file bytes and zero tails after loading |
| `ElfImage.LoadFrame` | kernel/elf.c:499-527 | nothing outside the segments changes |
| `ElfImage.MaxEnd` | kernel/elf.c:498-509 | the largest segment end |
| `ElfImage.StringIn` | kernel/elf.c:578-585 | each pointer leads to its string |
| `Elf.CheckSegments` | kernel/elf.c:450-464 | 0 if and only if every loadable segment fits memory and file, else the error of the first that does not |
| `Elf.SegmentCode` | kernel/elf.c:450-464 | the error of the first segment that is not acceptable |
| `Elf.HeaderFields` | kernel/elf.c:423-450 | which fields of the ELF header are read as entry point, position, size and number of program headers |
| `Elf.HeaderValid` | kernel/elf.c:440-441 | which headers are accepted, byte by byte |
| `Elf.SegmentFields` | kernel/elf.c:499-509 | which word of a program header is offset, address, size in the file and size in memory |
| `Elf.StackTop` | kernel/elf.c:547-555 | the stack of each nesting level, 2 MiB below the one before |
| `Elf.Process.CopyArgs` | kernel/elf.c:470-488 | the argument strings as they stand in the caller's memory |
| `Elf.Process.LoadSegments` | kernel/elf.c:498-527 | memory after loading all segments in order, and the highest end |
| `Elf.Process.BuildStack` | kernel/elf.c:556-597 | the argument block is on the stack, the rest of the stack is zero, and memory outside the stack area is unchanged |
| `Elf.Process.ResetHeap` | kernel/elf.c:541-545 | the heap starts page-aligned above every segment, and empty |
| `Elf.Process.Rename` | kernel/elf.c:603-607 | the process is named after the last path component, cut to 31 bytes |
| `Elf.Process.Execve` | kernel/elf.c:411-613 | which error is reported; on failure memory, heap bounds and name are unchanged; on success the new image |
| `Elf.ImageInPlace` | kernel/elf.c:499-527 | after success each segment clear of the others and of the stack holds its bytes of the file, then zeros |
| `Elf.RestInPlace` | kernel/elf.c:499-597 | after success every other address keeps its byte |
| `Elf.Decodes` | kernel/elf.c:572-597 | the stack decodes to the arguments; array and strings do not overlap |
| `Elf.NullAfterLast` | kernel/elf.c:586-589 | the argument array ends with a null |
| `Elf.NoArguments` | kernel/elf.c:565-570 | a program without arguments finds none, on an aligned stack |
| `Elf.InsideStack` | kernel/elf.c:572-597 | the argument block stays inside the stack if and only if its size fits |
| `Elf.ArgumentTooLong` | kernel/elf.c:572-597 | one argument of 64 KiB reaches below the stack |
| `Elf.ArgumentsArrive` | kernel/elf.c:470-597 | the new program finds the first 32 arguments of the caller |
| `Elf.AfterSlashMeans` | kernel/elf.c:603-605 | the name is what follows the last slash |

## Left out

- Devices: ATA, AHCI, xHCI bring-up, port I/O, MMIO and timeouts. A disk is a reliable array of 512-byte sectors, so the branches taken when a transfer fails inside the disk are not modelled.
- Heap and pointers: whether `kmalloc` and `krealloc` succeed is an input (`DiskFs.SaveHeap`, `DiskFs.LoadHeap`, and `heapOk` elsewhere); the temporary arrays for bitmap and index count as one request each; a node pointer is a number in a map, so use after free is not expressed.
- Time stamps, credentials and permission policy: the outcome of a permission check is an input.
- Corrupted images: the loader's bounds checks add offsets and lengths in exact arithmetic; images for which the 32-bit sums of the code wrap are not modelled, and neither are the nodes that a pass makes before it fails.
- FAT16 mounting, subdirectories and `fat16_read_dir`: the geometry is an input with the bounds of Microsoft's FAT specification v1.03; only root directory entries are created and deleted.
- fs/fat.c, the read-only driver, which repeats the chain reading of fs/fat16.c.
- The in-place splitting of the work buffer in `path_normalize`: components are slices of the buffer.
- The syscall layer, scheduler, paging, console and editor: plumbing or user interface.
- RawDisk.SdaRead: off + size below 2^32, as the 32-bit sum in the code needs; the same for RawDisk.SdaWrite and RawDisk.WriteThenRead.
- RamFs.RamFs.DiskfileWrite: sizes for which the 32-bit block count does not wrap; the same for RamFs.RamFs.Write.
- FatFile.FatFiles.NodeWrite: for a volume with at most 64 sectors per cluster and a node whose chain is in the table; off + size below 2^32.
- FatFile.FatFiles.NodeRead: the early return at an end of chain inside the file size is unreachable for such nodes and is not modelled.
- FatDir.RootDir.CreateRootEntry: names are C strings, without a zero byte.
- PipeProtocol.RunFifo: one reader and one writer, each making one call at a time and none after closing its end.
- Pipes.Table.Close: for descriptors of the table; the code does not check the upper bound.
- CommandRing.RunFifo: the driver enqueues no Link TRB of its own and at most `ring_size - 2` blocks are outstanding.
- EventRing.RunInOrder: the controller posts only while fewer events are unread than the ring has slots; the polling timeout is not modelled.
- Elf.Process.Execve: for files whose program headers lie in the file and whose segments are no larger in the file than in memory, argument strings that end in memory, and an argument block above address 0; the code checks none of these. Page mapping is not modelled.
- DiskFs.Save: the tree has names under 64 bytes, sound nodes and RAM contents that fit the heap; mounted /fat nodes are not among them.
- DiskFs.Load: a load that fails half-way reports its error and keeps the nodes of the records before; the node that the failing pass may have made is not promised.
- Runs.RunGood: a crash comes between two events, so no sector, block write or save is left half done; syncs and loads report success, and contents in RAM fit the kernel heap at each sync. A boot that finds no image, or one that was overwritten, is not a step: it starts a new run.
- Runs.CrashFinds: in all states up to the crash blocks are owned exactly, which `Runs.RunHeld` reduces to the bitmaps that earlier boots found; the same for Runs.CrashAddsDevices, Runs.ImageStays, Runs.UntouchedBytes and Runs.SyncedFileSurvives.
- Runs.CrashIff: the same, and the names in the saved tree are distinct.
- Runs.CrashFlushed: the same, for a saved tree of at most 16384 nodes, block storage before and after the crash, and no write to the raw disk that changes the bitmap.
- Runs.NextBoot: for a saved tree of at most 16384 nodes whose names are distinct.
- Runs.SameDevices: for at most 16384 nodes, since beyond them entries of /dev may be cut off.
- Runs.SyncedFileSurvives: with block storage after the crash, unless the file has no blocks.
- Machine.SdaWrite: off + size below 2^32, as for `RawDisk.SdaWrite`.
- Machine.Write: sizes for which the 32-bit block count does not wrap.
- Machine.MakeAt: as for `Vfs.MakeAt`.
- Machine.PowerOn: a disk on which an earlier system left bits set, but no image that loads, starts no run.
- DiskState.SuperblockLost: for disks below 4 GiB, where a 32-bit offset reaches the snapshot.
- The directories that `ramfs_init` makes below the root: ordinary creations of the run.
- The rest of boot after `devfs_init`: `install_builtin_apps` and `users_init` are ordinary operations of the run; `fat16_init` hangs a foreign directory into the tree and is not modelled.
- Devices.MakeDevice: the read and write functions of a device node; fs/devfs.c:88-166 is in `RawDisk`.
- Persist.MeasureIff: for trees of at most 16384 nodes, since `measure_node` counts also what a sync cuts off.
- Vfs.MakeAt: for paths whose normal form is shorter than 256 bytes, the size of the buffers in the code, and for trees with distinct names.
- Vfs.Delete: for trees with distinct names; `RamFs.RamFs.RemoveNode` needs none.
- Path.ResolveIsCancel: up to 64 components, beyond which the stack drops components.
- Elf.CheckSegments: program headers lie in the file; Elf.Process.LoadSegments: no segment is larger in the file than in memory.
- EventRing.Driver.PollOnce: the acknowledgements in the status and interrupt registers.
