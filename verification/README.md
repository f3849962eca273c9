# XLD kernel: storage and memory, modelled and proved

This project models the four stateful cores of the XLD kernel and the text and memory routines they
stand on, and proves what they keep over whole runs:

- the FAT32 driver: entries packed in sectors, cluster chains, first-fit allocation, directories,
  open files with a cursor, path resolution, creation, the recursive listing;
- the kernel heap: a first-fit free list whose headers lie in front of the payloads, with splitting
  and two-sided merging, over pools taken from the page allocator;
- the physical page allocator: a bitmap searched by 64-bit words, a cache of single pages, and its
  set-up from the boot memory map;
- the virtual file system: path normalisation in place, the bind of `/` to `/mnt`, the mount table,
  longest-prefix lookup, and the position of an open file;
- `memset`, `memcpy` and `memmove` by words.

Each piece has two layers. A value layer says what the state means (a chain's content as one byte
sequence, a heap as blocks and a free list, an allocator as one flag a page, a table as a sequence
of entries) and carries the run theorems. An imperative layer follows the code (sectors patched in
place, headers written byte by byte in one memory array, bits set in a bitmap, a buffer rewritten
with two pointers) and is proved to do exactly what the value layer says.

## How the files fit

| file | part |
|---|---|
| `Bytes` | bytes, little-endian words, 32-bit casts, products and quotients by a symbolic factor |
| `Memory` | `string.h` memory routines on one byte array |
| `FatTable`, `FatChain`, `FatContent`, `FatVolume` | entries, chains, flat content, the volume object |
| `FatOnDisk` | table, content and directory entries as bytes of the device; what scans find |
| `FatFile`, `FatWrite`, `FatRoundTrip`, `FatFull`, `FatAppend` | reading and writing through a cursor, write then read, full volumes and files of 4 GiB, appending |
| `ShortName`, `FatDir`, `FatCreate`, `PathWalk`, `PathMeaning`, `FatOpen`, `FatNamed` | names, directories, creation, paths and what they lead to, open and mkdir, what paths name afterwards |
| `FatListing`, `FatShown`, `FatTrail`, `FatCircle` | the recursive listing, what it shows, exactly where it ends, a volume where it does not |
| `PageSpec`, `PageBitmap`, `PageAllocator`, `PageInit`, `PageRun` | the page allocator as a value, its bitmap, the object, boot, runs |
| `HeapSpec`, `HeapOrder`, `HeapSizes` | the heap as a value; address order and full restoration; block sizes |
| `HeapBytes`, `HeapSteps`, `HeapMoves`, `KernelHeap`, `HeapRun` | headers in memory, what header writes do, the pointer moves, the object, runs |
| `VfsPath`, `VfsLookup`, `MountTable`, `MountRoute`, `VfsFile` | path text, translation and lookup, the table, both together, open files |

## Where the code does less than it seems to

The model follows the code. Where a natural property fails, a lemma or a contract gives the exact
condition under which it holds.

- A read is cut at the file size exactly when position plus size stays below 2^32 or the file fills
  its clusters (`FatRoundTrip.ReadCutAtSize`).
- The position of an open file agrees with the driver's exactly while it stays below 2^32, over every
  run on any file (`VfsFile.RunAny`, with a concrete read across in `VfsFile.ReadAcross`).
- The listing need not end, even on an acyclic table: a directory entry can name a cluster outside the
  table, and the words there can run in a circle (`FatCircle.ListingNeverEnds`). With an acyclic table
  whose links stay inside it ends exactly when every directory it enters lies inside or finds its way
  out (`FatTrail.ListingEndsExactly`); the first can be read off the entries
  (`FatTrail.ContainedListable`), and a device that ends with its volume is always enough
  (`FatTrail.EndsWithVolume`, `FatTrail.EveryListingEnds`).
- A seek goes to the offset, cut at the file size, exactly when the cast of the offset to a 32-bit
  `int` does not matter (`VfsFile.SeekTargetExact`, `VfsFile.SeekComesRound`); a handle open for
  writing only goes to 0.
- A name that starts with byte 0xE5 is created and never found; an end mark that is overwritten can
  bring forgotten entries back (`FatDir.InsertedIsFound`, `FatDir.InsertKeepsOthers`, with concrete
  directories in `FatCreate.DeletedNameLost` and `FatCreate.ForgottenComesBack`).
- `fat32_open` can fail after it has created the file, when no handle is left (`FatOpen.Open`).
- The dot entries of a new directory are never found by path, because their eleventh name byte is zero
  and no short name of a path has a zero byte (`FatNamed.NothingInNew`).
- Mode `a` sets the position to the end of the file and leaves the cursor at its start, so what is
  written goes over the start; it appends exactly when the file was empty (`FatAppend.OpenAndAppend`,
  `FatAppend.AppendsExactly`).
- No write and no close puts the size into the directory entry. What was written comes back through a
  handle with its cluster and size (`FatRoundTrip.WriteThenRead`), and through its path exactly when it
  was nothing (`FatNamed.SaveThenLoad`).
- The free scan stops inside the table exactly when the table has a free cluster
  (`FatVolume.ScanInsideExactly`). Otherwise it takes a zero word behind the table and breaks the chain
  it was asked for (`FatVolume.FullTableDamage`, with a concrete volume in `FatOpen.ScanLeavesTable`),
  or finds none and fails.
- A write puts down all its bytes, with its cursor on its position, exactly when there is room for
  them (`FatWrite.WriteFile`). A write that halts on a full volume leaves its cursor behind its last
  cluster, and the next one writes into the cluster with the next number (`FatFull.NextWriteStrikes`,
  with a concrete volume of two files in `FatFull.WriteIntoNeighbour`), unless a seek comes in between
  (`VfsFile.VfsSeek`).
- After a single page is freed the page allocator can hand it out twice; after any longer free it
  cannot (`PageSpec.SinglePageFree`).
- The pages of the page cache are all reserved at boot exactly when the bitmap is a whole number of
  pages or the last one lies in the kernel range (`PageInit.CachePagesReserved`,
  `PageInit.CachePageLost`).
- A new pool keeps the free list in address order exactly when it lies below the list and does not
  touch it (`HeapOrder.PoolOrdered`). First fit supplies pools upwards, so the order is lost as soon as
  start-up gets a second pool (`HeapRun.StartUpOrder`).
- `kmalloc` comes back exactly when a block fits, or the request fits a pool and four free pages lie in
  a row off page 0 and off a free run there (`HeapRun.ComesBackWhen`); the rounded size covers the request exactly when the 64-bit
  addition does not wrap (`HeapSpec.RoundedCovers`).
- A mount at `/` covers only the path `/` (`VfsLookup.MatchIsPrefix`).

## Model

| member | source | states |
|---|---|---|
| `FatTable.PutEntrySame` | kernel/src/fat32.c:85-100 | an entry written reads back as its low 28 bits, and its four reserved bits are kept |
| `FatTable.PutEntryOther` | kernel/src/fat32.c:85-100 | writing one entry changes no bit of any other entry, in the same sector or not |
| `FatTable.PutEntryUndo` | kernel/src/fat32.c:115-133 | taking a free entry with any value and freeing it again restores the disk bit for bit |
| `FatTable.PutEntryFat` | kernel/src/fat32.c:85-100 | on the whole table exactly one number changes, and no data sector does |
| `FatTable.DataWriteFat` | kernel/src/fat32.c:63-68 | a write to the data area changes no entry |
| `FatOnDisk.TableWord` | kernel/src/fat32.c:71-83 | the entry of a cluster is four bytes of the device, counted from the start of the table, least significant first, without the top four bits |
| `FatOnDisk.LinkMeans` | kernel/src/fat32.c:71-113 | there is a next cluster exactly for entries below 0x0FFFFFF7, and it is the entry; off the device there is none |
| `FatVolume.FatFs.ReadFatEntry` | kernel/src/fat32.c:71-83 | the low 28 bits of the entry, and the bad-cluster value for a sector off the device |
| `FatVolume.FatFs.WriteFatEntry` | kernel/src/fat32.c:85-100 | the disk becomes the one with that entry put, or the call fails off the device and nothing changes |
| `FatVolume.FatFs.NextCluster` | kernel/src/fat32.c:102-113 | the next cluster, or the end value for end marks and bad clusters |
| `FatVolume.FatFs.AllocateCluster` | kernel/src/fat32.c:115-133 | the lowest entry found free anywhere on the device, linked behind the given tail; 0 means nothing free or no entry for the tail, and then the disk is bit-identical |
| `FatVolume.AllocDiskFat` | kernel/src/fat32.c:115-133 | inside the volume an allocation is one change of the table, no data sector changes, no reserved bits change |
| `FatVolume.FrameAlloc` | kernel/src/fat32.c:115-133 | an allocation touches no allocated cluster outside the chain that is extended |
| `FatVolume.ScanStaysInside` | kernel/src/fat32.c:115-119 | with a free cluster in the table the scan finds the least one of the table |
| `FatVolume.ScanInsideExactly` | kernel/src/fat32.c:115-119 | the scan stops inside the table if and only if the table has a free cluster |
| `FatVolume.FullTableDamage` | kernel/src/fat32.c:115-133 | on a table without one the word taken lies behind it, the disk changes, and the chain behind whose tail it was linked is a chain no longer, with or without it |
| `FatOpen.ScanLeavesTable` | kernel/src/fat32.c:115-133 | a concrete volume on which it happens |
| `FatChain.ChainDistinct` | kernel/src/fat32.c:102-113 | no chain visits a cluster twice |
| `FatChain.ChainUnique` | kernel/src/fat32.c:102-113 | the table and the first cluster determine the chain |
| `FatChain.MeetingChains` | kernel/src/fat32.c:102-113 | two chains that share a cluster run together from there to their ends |
| `FatChain.AllocFreeSet` | kernel/src/fat32.c:115-133 | an allocation removes exactly its cluster from the free set |
| `FatChain.AllocFresh` | kernel/src/fat32.c:115-133 | with tail 0 a one-cluster chain joins the family, which stays acyclic and pairwise disjoint |
| `FatChain.AllocExtend` | kernel/src/fat32.c:115-133 | behind a tail exactly that chain grows by one cluster and all stay acyclic and pairwise disjoint |
| `FatChain.AllocationRun` | kernel/src/fat32.c:115-133 | over every run of no more requests than free clusters, chains only grow at their ends, stay disjoint and acyclic, and free plus chained clusters is constant |
| `FatVolume.PlayRequests` | kernel/src/fat32.c:115-133 | the same requests made on the disk end in the table and the chains of that run, and no data sector changes |
| `FatContent.SectorSlice` | kernel/src/fat32.c:598-611 | the part of the sector a cursor addresses is that part of the flat content |
| `FatContent.SectorPatch` | kernel/src/fat32.c:653-672 | one sector patched in place is the flat content patched at the flat position and nowhere else |
| `FatOnDisk.ContentOnDevice` | kernel/src/fat32.c:598-611 | a cluster is one stretch of the device behind the data start, and the content of a chain is its clusters end to end, byte by byte |
| `FatContent.FrameChain` | kernel/src/fat32.c:633-700 | a chain that shares no cluster with the file keeps its links and its content |
| `FatFile.CursorIsDivMod` | kernel/src/fat32.c:613-626 | the cursor is chain[position / cluster size] and position mod cluster size, and the end value past the chain |
| `FatFile.PieceRead` | kernel/src/fat32.c:587-611 | on a proper file the bytes taken from the current sector are the flat content at the position, inside the cluster and the chain |
| `FatFile.MovedAlong` | kernel/src/fat32.c:613-626 | moving on lands on the cursor of the new position, and on the end value exactly at the end of the chain |
| `FatFile.Follow` | kernel/src/fat32.c:590-597 | the inner loop follows that many links, or finds the end of the chain |
| `FatFile.ReadLoop` | kernel/src/fat32.c:586-627 | from any cursor on any volume, the loop on the disk is the loop as a value, with its address and its offset in 32 bits |
| `FatFile.ReadRunContent` | kernel/src/fat32.c:586-627 | from a proper cursor that loop delivers the flat content from the position on, up to the request or the end of the chain, and ends on the cursor behind it |
| `FatFile.Read` | kernel/src/fat32.c:571-631 | for any handle on any volume: refusals change nothing; otherwise bytes and cursor are those of the loop, and the position moves by their number modulo 2^32 |
| `FatFile.ReadFile` | kernel/src/fat32.c:571-631 | on a proper file it delivers content[pos..pos+n] with n cut in 32-bit arithmetic, and moves the cursor to that of the position behind it |
| `FatRoundTrip.ReadCutAtSize` | kernel/src/fat32.c:579-581 | n is min(size, file size - pos) if and only if pos + size is below 2^32 or the file fills its chain |
| `VfsFile.ReadAcross` | kernel/src/fat32.c:579-581 | a read of 100 at 2^32 - 10 in a file of 2^32 - 2 bytes returns two bytes from behind the file, the driver position wraps to 0 and the position above becomes 2^32 |
| `FatFull.BigFile` | kernel/src/fat32.c:571-631 | a volume with a proper chain of exactly 2^32 bytes, so such files exist |
| `FatRoundTrip.ReadTwice` | kernel/src/fat32.c:571-631 | two reads on one handle return the bytes of one joined read on another at the same place, and both handles end at the same place |
| `FatWrite.GrowStep` | kernel/src/fat32.c:684-696 | a cluster added behind the tail was free at the start, clusters are conserved, and nothing allocated elsewhere is touched |
| `FatWrite.PatchStep` | kernel/src/fat32.c:660-672 | a sector write in the file's own chain keeps that |
| `FatWrite.GrowContent` | kernel/src/fat32.c:687-692 | the old content is the front of the content after the chain grew |
| `FatWrite.PatchSector` | kernel/src/fat32.c:653-672 | one sector read, patched and written back, at the address computed in 32 bits; off the device nothing changes |
| `FatWrite.PatchLays` | kernel/src/fat32.c:653-678 | on a file with a proper cursor the patch lays its bytes over the flat content behind those already written |
| `FatWrite.StepOrExtend` | kernel/src/fat32.c:684-696 | at the end of a cluster: the next one, or one taken behind it, or a halt on the spot |
| `FatWrite.TurnGood` | kernel/src/fat32.c:684-696 | the cursor still agrees with the position after it, or the chain holds every cluster of the table and is written to its last byte |
| `FatWrite.RunOutcome` | kernel/src/fat32.c:643-697 | every run of the loop ends in one of three ways: all bytes laid over the content, a halt at the end of the full chain, or a scan that left the table there |
| `FatWrite.GoingExactly` | kernel/src/fat32.c:643-697 | all bytes find their place if and only if there is room for them |
| `FatFull.PastTheCluster` | kernel/src/fat32.c:653-658 | an offset of one whole cluster addresses the first sector of the next cluster number |
| `FatFull.NextWriteStrikes` | kernel/src/fat32.c:684-692 | after a halt the next write puts up to a sector of bytes there and reports them written |
| `FatFull.StruckContent` | kernel/src/fat32.c:653-672 | in the content of the chain that owns that cluster exactly those bytes change |
| `FatFull.WriteIntoNeighbour` | kernel/src/fat32.c:633-700 | two writes to one file on a full volume of two files: the first fills its cluster, the second changes the other file |
| `FatWrite.WritePass` | kernel/src/fat32.c:643-697 | one pass over the fields of any handle on any volume is one pass of the loop as a value |
| `FatWrite.WriteLoop` | kernel/src/fat32.c:643-697 | so is the whole loop, with disk, first cluster, cursor, position and size |
| `FatWrite.RunPos` | kernel/src/fat32.c:674-682 | the loop moves the position by the bytes written, modulo 2^32; while it does not wrap the size becomes the furthest place reached |
| `FatWrite.Write` | kernel/src/fat32.c:633-700 | for any handle on any volume, at any position: refusals change nothing; otherwise the count, the disk and every field are those of the loop |
| `FatWrite.WriteFile` | kernel/src/fat32.c:633-700 | on a proper file: with room all bytes are laid over the content, the chain grows only at its end and no other allocated cluster or entry changes; without room the chain takes every free cluster, is filled to its last byte, and the write halts there with its cursor off the position, on a file whose chain and size are still proper, or scans past the table |
| `FatRoundTrip.WriteRun` | kernel/src/fat32.c:633-700 | any number of writes is one write of all their bytes |
| `FatRoundTrip.WriteThenRead` | kernel/src/fat32.c:571-700 | what is written through a fresh handle in any pieces is exactly what a read handle on the same first cluster and size returns, and every other chain keeps links and content |
| `ShortName.PrintedShortName` | kernel/src/fat32_ls.c:16-32 | for every text, shortening the printed form of its short name gives the same eleven bytes |
| `ShortName.ShortNamesCollide` | kernel/src/fat32.c:136-176 | two texts share a short name if and only if the first eight bytes of their bases and the first three of their extensions agree up to case and spaces |
| `ShortName.ToShortName` | kernel/src/fat32.c:136-176 | the loops compute the folded, cut and padded name and extension split at the first inner dot |
| `ShortName.NoLowerCase` | kernel/src/fat32.c:149-171 | no short name has a lower-case letter |
| `ShortName.AlikeNames` | kernel/src/fat32.c:149-171 | texts that differ only in the case of letters, or in spaces against underscores, have the same short name |
| `ShortName.PlainText` | kernel/src/fat32.c:136-176 | a name of up to eight and three bytes without lower case, spaces or further dots stands padded in its fields as it is, and is printed as it was |
| `ShortName.HelloName` | kernel/src/fat32.c:136-176 | `hello.txt` becomes `HELLO   TXT` |
| `ShortName.NameToString` | kernel/src/fat32_ls.c:16-32 | the printed form: each field up to its first space, joined by a dot when there is an extension |
| `FatDir.ScanSector` | kernel/src/fat32.c:204-225 | sixteen entries of a sector scanned are sixteen steps of the scan of the directory |
| `FatDir.ScanCluster` | kernel/src/fat32.c:195-226 | the sectors of a cluster scanned are the scan of its part of the directory |
| `FatDir.ScanDirectory` | kernel/src/fat32.c:188-265 | the walk over chain, sectors and entries finds what a scan of the directory as one sequence of entries finds, and where |
| `FatOnDisk.LookupMeans` | kernel/src/fat32.c:204-225 | a lookup finds the first entry with that name that is not deleted and no piece of a long name, and nothing exactly when a zero byte stands in front of every such entry |
| `FatOnDisk.FreeSlotMeans` | kernel/src/fat32.c:249-258 | the free slot is the first entry that starts with 0 or 0xE5, and there is none exactly when no entry does |
| `FatOnDisk.EntryFields` | kernel/src/fat32.h:45-59 | first cluster and size of an entry are the numbers in its bytes 26 to 27, 20 to 21 and 28 to 31 |
| `FatOnDisk.DirectoryBit` | kernel/src/fat32.h:61-67 | an entry is that of a directory if its attribute has bit 0x10, and not otherwise |
| `FatDir.InsertedIsFound` | kernel/src/fat32.c:496-533 | a new entry in the first free slot is found there by its name if and only if the name does not start with the deleted mark |
| `FatDir.InsertKeepsOthers` | kernel/src/fat32.c:234-265 | all other lookups stay if and only if the slot was a deleted one or no new name shows between the old and the next end mark |
| `FatCreate.NewEntryFields` | kernel/src/fat32.c:501-512 | name, attribute, first cluster and size read back from a fresh entry, and all its other bytes are zero |
| `FatCreate.SlotWrite` | kernel/src/fat32.c:519-532 | an entry written into its sector replaces exactly that slot of the directory |
| `FatCreate.AddEntry` | kernel/src/fat32.c:514-532 | the entry goes into the first free slot, the table is bit-identical, no other cluster changes; a full directory leaves the disk alone |
| `FatCreate.CreateFile` | kernel/src/fat32.c:501-533 | it succeeds exactly when there is a slot and a free cluster, takes the least one, adds one entry; on failure the disk is bit-identical |
| `FatCreate.FillDirectory` | kernel/src/fat32.c:731-765 | the new cluster holds the two dot entries and zeros, and nothing that was allocated changed |
| `FatCreate.BlankIsNew` | kernel/src/fat32.c:731-765 | the new directory as its own scan sees it: two dot entries, then only zero entries |
| `FatCreate.MakeDirectory` | kernel/src/fat32.c:726-794 | it succeeds exactly when there is a slot and a free cluster; otherwise the table is bit-identical and nothing allocated changed |
| `FatCreate.MkdirUndone` | kernel/src/fat32.c:770-773 | freeing the cluster of a directory that found no slot restores the table sector by sector |
| `FatCreate.CreatedLookups` | kernel/src/fat32.c:496-533 | a create adds its name to the parent's lookups, keeps all other lookups exactly under the stated condition, and keeps every other directory |
| `FatCreate.DeletedNameLost` | kernel/src/fat32.c:496-533 | a name that starts with 0xE5, created in an empty directory, is not found there |
| `FatCreate.ForgottenComesBack` | kernel/src/fat32.c:234-265 | a directory with an entry behind its end mark: the entry is not found, and is found after another name was created |
| `FatCreate.TidyInsert` | kernel/src/fat32.c:234-265 | with only zero slots behind the end mark no other lookup changes, and that form is kept |
| `PathWalk.ComponentsAroundSlash` | kernel/src/fat32.c:296-325 | a slash separates: components of both sides one after the other, so empty ones vanish |
| `PathWalk.DoubledSlash` | kernel/src/fat32.c:296-325 | doubling any slash does not change what a path resolves to |
| `PathWalk.Enter` | kernel/src/fat32.c:302-314 | one component: the directory its short name is found as, or nothing |
| `PathWalk.NextToken` | kernel/src/fat32.c:297-298 | cutting the buffer at the next slash gives the text before it and leaves the rest uncut |
| `PathWalk.ResolveText` | kernel/src/fat32.c:286-336 | the tokeniser that cuts its buffer in place equals the recursive walk over the non-empty components |
| `PathWalk.Resolve` | kernel/src/fat32.c:268-336 | the same from the path, with the root, a leading slash and the buffer limit |
| `PathMeaning.WalkJoins` | kernel/src/fat32.c:296-325 | a walk along two lists of directories is a walk along the first and on from where it ends |
| `PathMeaning.OneStep` | kernel/src/fat32.c:302-314 | a directory that is found is entered at the cluster its entry gives in two halves |
| `PathMeaning.MissingExactly` | kernel/src/fat32.c:302-314 | a path leads nowhere if and only if one of its directories is not found where the walk got to, or is found as an entry without bit 0x10 |
| `PathMeaning.LastPiece` | kernel/src/fat32.c:286-336 | the text in front of the last slash is walked through, the piece behind it is the short name to look up there, and there is none when the text ends in a slash |
| `FatDir.FindEntry` | kernel/src/fat32.c:188-232 | the entry a lookup by short name finds |
| `FatOpen.SetUp` | kernel/src/fat32.c:535-566 | the first unused handle is set up at the start of the file for its mode, with cluster and size from bytes 20 to 21 and 26 to 31 of the entry; no other handle changes, and none is given exactly when all are in use |
| `FatOpen.Open` | kernel/src/fat32.c:474-569 | every outcome by what the path names: nothing, an entry, opened with the cluster and size in its bytes, or a missing name that is created for `w` and `a`; failures to create leave the disk bit-identical |
| `FatOpen.Mkdir` | kernel/src/fat32.c:709-795 | every outcome by what the path names; on success one entry in the parent and a new empty directory |
| `FatOpen.NewHandleWrites` | kernel/src/fat32.c:546-560 | a handle of mode `w` on a file just created meets what writing needs |
| `FatOpen.OpenedReads` | kernel/src/fat32.c:546-566 | a handle for reading meets what reading needs when the entry's chain is proper and holds the size |
| `FatNamed.AbsentName` | kernel/src/fat32.c:296-336 | a missing name that a path leads to never starts with the zero byte of an end mark |
| `FatNamed.PathLimit` | kernel/src/fat32.c:279-289 | a path of more than 256 bytes names nothing, and one of less than 256 is resolved |
| `FatNamed.LookupsAfterCreate` | kernel/src/fat32.c:474-533 | after a create through a path the name is found in the directory of the path unless it starts with 0xE5, and the other lookups there stay if and only if nothing forgotten comes back |
| `FatNamed.NothingInNew` | kernel/src/fat32.c:748-760 | by path a directory just made has no entries, not even the two dot entries, whose last name byte is zero |
| `FatNamed.WalkKept` | kernel/src/fat32.c:296-325 | a walk that went through still ends in the same directory, also when it goes through the directory that gained the entry |
| `FatNamed.OthersStillNamed` | kernel/src/fat32.c:474-533 | every path that named an entry names the same one after a create, and a path to another missing name still finds it missing if nothing forgotten comes back |
| `FatNamed.CreatedIsNamed` | kernel/src/fat32.c:474-533 | the path that created an entry then names exactly that entry, or goes on naming nothing if the name starts with 0xE5 |
| `FatNamed.OpenTwice` | kernel/src/fat32.c:474-569 | a missing path opened for writing and opened again for reading: the second handle is another one on the cluster the first call took, and the volume does not change any more |
| `FatNamed.Load` | kernel/src/fat32.c:474-631 | an existing file opened by path and read from its start gives the content of its chain, up to the size in its entry, and changes nothing on the volume |
| `FatNamed.SaveThenLoad` | kernel/src/fat32.c:474-707 | a new file written through its handle and opened again by its path reads as empty, so its bytes come back that way if and only if there were none |
| `FatAppend.WritesAtStart` | kernel/src/fat32.c:643-697 | a cursor on the first byte lays the bytes over the start of the chain, whatever the position says |
| `FatAppend.OpenAndAppend` | kernel/src/fat32.c:550-562 | an existing file opened in mode `a` and written: position and size grow as if appended, the bytes lie over the start of the file |
| `FatAppend.AppendsExactly` | kernel/src/fat32.c:550-562 | bytes that do not begin like the file are appended if and only if the file was empty |
| `FatOpen.SaveNew` | kernel/src/fat32.c:474-700 | open a new path, write in any pieces, read back: exactly those bytes, exactly one new entry in the directory, every other chain untouched |
| `FatOpen.FreshVolume` | kernel/src/fat32.c:474-533 | on a freshly formatted volume every one-component path is a missing name of the root that can be created |
| `FatListing.ListSector` | kernel/src/fat32_ls.c:122-179 | the entries of a sector add exactly what they show and what lies below them, and the end mark stops the directory |
| `FatListing.ListCluster` | kernel/src/fat32_ls.c:113-180 | the same for the sectors of any cluster number; a sector off the device stops the directory |
| `FatListing.ListDir` | kernel/src/fat32_ls.c:94-184 | where the walks of the directories it enters end, also when entries point at ancestors or off the volume, the listing ends, and its counters grow by the files and directories of the tree unfolded to the depth limit |
| `FatShown.ShownExactly` | kernel/src/fat32_ls.c:126-140 | an entry is shown if and only if it stands in front of the end mark, does not start with a dot or 0xE5, and has no attribute bit 0x08 |
| `FatShown.ShownConcat` | kernel/src/fat32_ls.c:122-179 | entries are shown one after the other, each as often as it stands there |
| `FatShown.FilesAndDirectories` | kernel/src/fat32_ls.c:145-178 | every entry shown is counted once, as a file or as a directory of the tree |
| `FatShown.TenLevels` | kernel/src/fat32_ls.c:97-101 | directories are entered down to depth 10; what one at depth 10 shows is counted, and below it nothing is |
| `FatShown.InsertedIsListed` | kernel/src/fat32_ls.c:122-179 | a new entry adds one file or one directory to the listing of its directory if and only if it took the slot of a deleted entry or nothing to be shown was left behind the end mark |
| `FatShown.CreatedIsListed` | kernel/src/fat32.c:496-533 | the same on the volume, for a create in a directory and the listing of that directory before and after |
| `FatShown.NewDirectoryLists` | kernel/src/fat32.c:731-765 | a directory just made lists, at every depth, with no files and no directories |
| `FatTrail.TrailExactly` | kernel/src/fat32_ls.c:110-183 | the loop over the clusters of a directory ends if and only if its walk does: otherwise it is still going after any number of passes |
| `FatTrail.TrailWhen` | kernel/src/fat32_ls.c:110-183 | with an acyclic table whose links stay inside, a walk ends if and only if it starts at a reserved number, in the table, or at a number outside that leads to an end or back in |
| `FatTrail.ListingEndsExactly` | kernel/src/fat32_ls.c:94-184 | with such a table a listing ends if and only if every directory it enters, level by level, is of that kind |
| `FatTrail.ContainedListable` | kernel/src/fat32_ls.c:94-184 | it does when every directory entered lies in the table, is reserved, or has its first sector off the device, which can be read off the entries |
| `FatTrail.EndsWithVolume` | kernel/src/fat32_ls.c:113-118 | on a device that ends with its volume, and where no 28-bit cluster number wraps, no number outside addresses a sector |
| `FatTrail.EveryListingEnds` | kernel/src/fat32_ls.c:94-184 | there an acyclic table is enough, for any directory and whatever files and free clusters hold |
| `FatCircle.ListingNeverEnds` | kernel/src/fat32_ls.c:94-184 | a volume of one cluster with an acyclic table whose root names cluster 3, behind the table: the listing of that directory goes on after any number of passes |
| `FatCircle.FreshVolumeLists` | kernel/src/fat32_ls.c:94-184 | on a freshly formatted volume of any geometry, on any device, the listing of the root ends and counts nothing |
| `FatTrail.ListsDirectory` | kernel/src/fat32_ls.c:110-183 | for a directory on a proper chain the listing shows the entries that lookups scan, up to the end mark |
| `VfsFile.SeekTargetExact` | kernel/src/fat32_vfs.c:137-154 | the target is min(offset, file size) if and only if the cast to `int` is harmless |
| `VfsFile.SeekComesRound` | kernel/src/fat32_vfs.c:137-154 | an offset past 4 GiB in a file of ten bytes goes to position 1 |
| `VfsFile.SkipForward` | kernel/src/fat32_vfs.c:145-152 | for any handle it ends; on a proper file reading forward in chunks of 512 lands on the cursor of min(n, file size) |
| `VfsFile.Seek` | kernel/src/fat32_vfs.c:131-158 | for any handle: other origins are refused and nothing changes; on a proper file, wherever its cursor was, rewinding and skipping gives the cursor computed directly |
| `VfsFile.VfsRead` | kernel/src/vfs.c:348-368 | for any file, count and position: refusals change nothing and the positions move together; on a file in step the bytes are those of the flat content, and the positions agree afterwards if and only if the end of the read is below 2^32 |
| `VfsFile.CutExactly` | kernel/src/fat32_vfs.c:101-113 | a read returns what the flat bytes would if and only if it does not cross 2^32 in a file with slack |
| `VfsFile.VfsSeek` | kernel/src/vfs.c:392-412 | for any file both positions agree after a seek; a proper file is then in step at the target, also after a write that halted on a full volume |
| `VfsFile.VfsWrite` | kernel/src/vfs.c:370-390 | for any file, at any position: refusals change nothing and the positions move together; on a file in step the bytes are laid over the file if and only if there is room, the driver's outcome is passed on otherwise, and the positions agree if and only if the end is below 2^32 |
| `VfsFile.RunReading` | kernel/src/vfs.c:348-412 | every run on a file open for reading, none of whose reads crosses 2^32 in a file with slack, returns what a flat byte sequence with one position returns |
| `VfsFile.RunAny` | kernel/src/vfs.c:348-412 | over every run of reads, writes and seeks, on any file and any volume, with or without room, the driver's position is the file's modulo 2^32, so they agree if and only if the file's is below 2^32 |
| `VfsFile.RunWriting` | kernel/src/vfs.c:348-412 | every run on a file open for writing, each of whose writes finds room where it stands, leaves the bytes the flat sequence has, with both positions equal |
| `VfsPath.ComponentsOfJoin` | kernel/src/vfs.c:40-80 | splitting a joined normal path gives the components back |
| `VfsPath.NormalTwice` | kernel/src/vfs.c:40-80 | normalising twice is normalising once |
| `VfsPath.JoinIsNormal` | kernel/src/vfs.c:57-60 | joined components of the bytes 32 to 126 are kept as they are |
| `VfsPath.OddByteDropped` | kernel/src/vfs.c:61-63 | any other byte is dropped wherever it stands |
| `VfsPath.NormalExample` | kernel/src/vfs.c:40-80 | a path with doubled slashes, a space, an unprintable byte and a last slash, and what becomes of it |
| `VfsPath.ScanNormal` | kernel/src/vfs.c:46-69 | collapsing slashes, skipping unprintable bytes and dropping a last slash gives the printable components joined again |
| `VfsPath.ScanInPlace` | kernel/src/vfs.c:46-64 | the two-pointer loop never overwrites what it still has to read |
| `VfsPath.NormalizePath` | kernel/src/vfs.c:40-80 | the buffer holds the normal form of its text; a text without a leading slash is refused and kept |
| `VfsLookup.NormalBelow` | kernel/src/vfs.c:123-126 | a normal path with any path appended normalises to the components of both |
| `VfsLookup.TranslationJoins` | kernel/src/vfs.c:88-127 | under the bind, translating p gives the bind's path joined to the normal form of p |
| `VfsLookup.StrNCpy` | kernel/src/string.h:139-144 | the text up to the limit, ended by a zero when it is shorter |
| `VfsLookup.TranslatePath` | kernel/src/vfs.c:88-127 | the buffer holds the translated path, with and without the bind; malformed and too long paths fail |
| `VfsLookup.MatchIsPrefix` | kernel/src/vfs.c:140-152 | on normal paths a match is a prefix of components, except that `/` matches only itself |
| `VfsLookup.BestUnique` | kernel/src/vfs.c:136-153 | the longest match does not depend on the order of the mounts |
| `VfsLookup.BestIsDeepest` | kernel/src/vfs.c:136-153 | every other match is a prefix of the longest one, component by component |
| `VfsLookup.RestRebuilds` | kernel/src/vfs.c:155-163 | mount path and relative path rebuild the real path, and share its components |
| `VfsLookup.FindMount` | kernel/src/vfs.c:132-166 | the loop finds the longest match and the text behind it, and nothing exactly when nothing matches |
| `MountRoute.Route` | kernel/src/vfs.c:277-303 | translation and lookup together: under the bind every path that fits reaches a mount; mount path, a slash and the relative path make up the real path; no other mount covers more |
| `MountRoute.MountThenRoute` | kernel/src/vfs.c:185-303 | a mount, then a lookup: a path that leads to the new name and to no older mount below it reaches the operations and the context that this mount was given, with the rest of the path |
| `MountRoute.BootMount` | kernel/src/vfs.c:185-303 | with `/mnt` mounted on an empty table every user path reaches that mount, with its normal form as the path in it |
| `MountTable.MountingTidy` | kernel/src/vfs.c:185-240 | a mount keeps all paths normal and pairwise different |
| `MountTable.MountingOutcome` | kernel/src/vfs.c:185-240 | a mount puts exactly the name, operations and context it was given in front of the table if and only if the path is rooted, there are operations, the name is not taken and there is memory; otherwise the table stays and the answer says which |
| `MountTable.UnmountingOutcome` | kernel/src/vfs.c:242-273 | an unmount takes out the mount of that name and no other, if and only if there is one |
| `MountTable.NamedWhole` | kernel/src/vfs.c:193-201 | the name is the normal form of the first 255 bytes |
| `MountTable.UnmountingTidy` | kernel/src/vfs.c:242-273 | so does an unmount |
| `MountTable.RunTidy` | kernel/src/vfs.c:185-273 | so does every run |
| `MountTable.MountThenUmount` | kernel/src/vfs.c:185-273 | a successful mount undone under any spelling of the same name restores the table |
| `MountTable.Table.NameOf` | kernel/src/vfs.c:193-201 | the name made in the 256-byte buffer, cut and normalised |
| `MountTable.Table.DoMount` | kernel/src/vfs.c:185-240 | the table and the result are those of the value; the new mount holds the name, operations and context given; the bind becomes that mount exactly when it is at `/mnt`; failures change nothing |
| `MountTable.Table.DoUmount` | kernel/src/vfs.c:242-273 | the mount of that name leaves the list, and the bind goes with it; failures change nothing |
| `MountTable.RunCalls` | kernel/src/vfs.c:185-273 | every run on the object is the run on values, with paths tidy and the bind pointing at the mount of `/mnt` exactly when there is one |
| `MountTable.MountAndUnmount` | kernel/src/vfs.c:185-273 | mounts and bind are the same objects as before |
| `Memory.MemSet` | kernel/src/string.h:15-49 | byte prefix, words and rest set exactly the range to the byte, for every address and length |
| `Memory.MemCpy` | kernel/src/string.h:52-88 | the aligned word copy and the byte copy are the simultaneous copy on disjoint ranges and for a target below its source |
| `Memory.MemMove` | kernel/src/string.h:91-107 | the simultaneous copy for every overlap |
| `PageSpec.AlignedFitIsLeast` | kernel/src/pmm.c:336-363 | the search over multiples finds the least aligned start of a free run, or there is none |
| `PageAllocator.CheckRun` | kernel/src/pmm.c:101-108 | the check across words finds the length of the free run, capped at the request |
| `PageAllocator.ScanWord` | kernel/src/pmm.c:93-117 | jumping over a run that is too short skips no fitting start |
| `PageAllocator.FindFreeRun` | kernel/src/pmm.c:77-123 | the word-skipping search returns the least start of a free run of the requested length, and the not-found value exactly when there is none, whatever the bits behind the last page |
| `PageAllocator.BitmapSet` | kernel/src/pmm.c:51-59 | one flag changes and no other |
| `PageAllocator.Manager.Pmalloc` | kernel/src/pmm.c:294-334 | exactly naive first fit, with the cached page first for one page |
| `PageAllocator.Manager.PmallocAligned` | kernel/src/pmm.c:336-363 | exactly aligned first fit |
| `PageAllocator.Manager.Pfree` | kernel/src/pmm.c:365-400 | exactly these flags are cleared, the count grows, a single page is cached while there is room; pointers outside are ignored |
| `PageAllocator.Manager.SetRegion` | kernel/src/pmm.c:412-431 | exactly these pages change, and a right free count stays right |
| `PageSpec.CleanRunSound` | kernel/src/pmm.c:294-400 | in every run without a single-page free, extents held are pairwise disjoint and marked, the cache is empty, and the count is the number of clear flags |
| `PageSpec.SinglePageFree` | kernel/src/pmm.c:365-400 | after a free, no sequence of requests can give a page to two owners if and only if the extent freed had two pages or more |
| `PageSpec.AllocThenRelease` | kernel/src/pmm.c:294-400 | several pages allocated and given back at once leave flags, count and cache as they were |
| `PageSpec.AlignedThenRelease` | kernel/src/pmm.c:336-400 | so does an aligned allocation |
| `PageSpec.ReleaseThenAlloc` | kernel/src/pmm.c:294-400 | a single page given back is the next one handed out, with its flag left clear |
| `PageRun.RunCalls` | kernel/src/pmm.c:294-400 | every run on the object ends in the state of the run on values, sound when the run is clean |
| `PageInit.Highest` | kernel/src/pmm.c:156-165 | the end of an entry that is not reserved, and no such entry ends higher |
| `PageInit.Choose` | kernel/src/pmm.c:190-201 | the first usable entry that is long enough, if there is one |
| `PageInit.Boot` | kernel/src/pmm.c:147-286 | the pages managed are those up to the highest memory; the free count is right, and a page is free exactly when the reduced map covers it and no reserved range does; the panic case exactly |
| `PageInit.FreeAfterBoot` | kernel/src/pmm.c:236-286 | in bytes of the boot map: a page is free after boot if and only if it lies wholly in usable memory, not in the second MiB, and not wholly in the stretch taken for bitmap and cache |
| `PageInit.CachePagesReserved` | kernel/src/pmm.c:265-272 | all pages of the cache are reserved if and only if the bitmap fills whole pages or the last one lies in the kernel range |
| `PageInit.CachePageLost` | kernel/src/pmm.c:265-272 | a concrete map after which the last page of the cache is free |
| `HeapSpec.SplitTiled` | kernel/src/kmalloc.c:60-74 | a split keeps the tiling of the pools |
| `HeapSpec.MergeTiled` | kernel/src/kmalloc.c:225-241 | so does a merge of neighbours |
| `HeapSpec.PoolTiled` | kernel/src/kmalloc.c:30-58 | new memory joins the tiling as one free block |
| `HeapSpec.RoundedCovers` | kernel/src/kmalloc.c:89-91 | the rounded size covers the request, by less than 16 bytes, if and only if the 64-bit addition does not wrap, and is 16 when it does |
| `HeapSpec.StepKeeps` | kernel/src/kmalloc.c:86-247 | every request and every free keeps blocks tiling the pools without gap or overlap, and the list holding each free block once and no used block |
| `HeapSpec.StepLive` | kernel/src/kmalloc.c:86-247 | a request puts one block in use, not in use before, that covers the rounded size by less than 40 bytes; a free takes one out; no other block in use changes |
| `HeapSpec.Run` | kernel/src/kmalloc.c:86-247 | over every legal run the heap stays tiled and listed, whatever the order of the list |
| `HeapSizes.StepRoomy` | kernel/src/kmalloc.c:60-74 | no call leaves a block smaller than 16 bytes, so with the bound above blocks are split exactly when the rest can serve a request |
| `HeapSizes.RunRoomy` | kernel/src/kmalloc.c:60-247 | so it is over every run |
| `HeapOrder.TakeOrdered` | kernel/src/kmalloc.c:95-129 | taking a block keeps address order and no two free neighbours |
| `HeapOrder.ReleaseOrdered` | kernel/src/kmalloc.c:205-241 | so does freeing, which merges on both sides |
| `HeapOrder.PoolOrdered` | kernel/src/kmalloc.c:48-54 | a pool pushed at the head keeps that if and only if it lies below the list and does not touch it |
| `HeapOrder.FreeHeapUnique` | kernel/src/kmalloc.c:205-241 | over given pools there is one ordered heap with nothing in use |
| `HeapOrder.FreeingEverythingRestores` | kernel/src/kmalloc.c:86-247 | any run from an ordered heap with nothing in use that takes no pool and ends with nothing in use restores the heap, in whatever order blocks were freed |
| `HeapRun.StartUpOrder` | kernel/src/kmalloc.c:76-84 | after start-up the list is in address order if and only if it holds at most one pool, since first fit gives pools upwards and each goes to the head |
| `HeapRun.ComesBackWhen` | kernel/src/kmalloc.c:135-140 | a request comes back if and only if a block fits, or it fits a pool and four free pages lie in a row off page 0 and off a free run there; two pools asked for are then enough |
| `KernelHeap.SupplyWhen` | kernel/src/kmalloc.c:31-35 | a pool is had within two attempts if and only if there are such pages |
| `HeapBytes.PutFresh` | kernel/src/kmalloc.c:47-52 | four field writes make exactly that header and change no byte outside it |
| `HeapBytes.HeaderBytes` | kernel/src/kmalloc.h:13-18 | a header in memory is the size and the next block as words of eight bytes, the flag and three magic bytes |
| `HeapBytes.GoodMagic` | kernel/src/kmalloc.c:101-106 | the three bytes compared are the magic of the header |
| `HeapMoves.SplitBlock` | kernel/src/kmalloc.c:60-74 | the headers of both parts, or no change when the rest would be too small |
| `HeapMoves.FindFit` | kernel/src/kmalloc.c:95-133 | the walk over next pointers finds the first block of the list that fits, with its predecessor |
| `HeapMoves.TakeBlock` | kernel/src/kmalloc.c:108-120 | splitting, flagging and unlinking in memory is taking on values, and no payload in use changes |
| `HeapMoves.InsertBlock` | kernel/src/kmalloc.c:205-223 | the block is linked in by address |
| `HeapMoves.FreeBlock` | kernel/src/kmalloc.c:205-241 | inserting and merging in memory is releasing on values, and no other payload in use changes |
| `HeapSteps.HeadersMissPayloads` | kernel/src/kmalloc.c:60-247 | header writes in free blocks and in the block at hand never reach a payload in use |
| `KernelHeap.FreshPool` | kernel/src/kmalloc.c:31-38 | four pages the page allocator had clear lie outside every pool |
| `KernelHeap.PayloadWrite` | kernel/src/kmalloc.h:13-18 | writing anywhere inside one payload leaves every header and the list as they are |
| `KernelHeap.KernelHeap.AddNewPool` | kernel/src/kmalloc.c:30-58 | four pages become one free block at the head; without pages the heap does not change |
| `KernelHeap.KernelHeap.Init` | kernel/src/kmalloc.c:76-84 | four pools are asked for one after the other, as on values, and no payload in use changes |
| `KernelHeap.KernelHeap.TakeFirst` | kernel/src/kmalloc.c:95-133 | the first fitting block is taken, or nothing changes |
| `KernelHeap.KernelHeap.Kmalloc` | kernel/src/kmalloc.c:86-141 | every request that comes back is one step of the heap as a value, with at most one new pool, and no byte of a payload in use changes |
| `KernelHeap.KernelHeap.Kfree` | kernel/src/kmalloc.c:185-247 | the block is released on values and no other payload in use changes; null, a wrong magic and a block already free change nothing |
| `KernelHeap.MovedMemory` | kernel/src/kmalloc.c:176-180 | over the three steps of a move the old bytes become the first bytes of the new block, and all other payloads in use keep theirs |
| `KernelHeap.KernelHeap.Krealloc` | kernel/src/kmalloc.c:154-183 | every case: the old bytes are the first bytes of the new block, all other payloads in use keep theirs; a block that is large enough stays |
| `HeapRun.Play` | kernel/src/kmalloc.c:86-247 | over any run of requests and returns the heap in memory is that of the run on values, and no byte changes in a payload that was in use and is not returned |
| `HeapRun.PlayedIsRun` | kernel/src/kmalloc.c:86-247 | a run of requests and returns is a legal run of the heap as a value, with the same heap and pools at its end |
| `HeapRun.PlayAndReturn` | kernel/src/kmalloc.c:86-247 | a run on the object from an ordered heap with nothing in use that takes no pool and ends with nothing in use puts every header and the list back as they were |

## Left out

- FatChain.AllocationRun: is about runs with no more requests than free clusters; the request after the last one is `FatVolume.FullTableDamage`.
- FatVolume.PlayRequests: the same.
- FatWrite.WriteFile: when the scan has left the table, what further passes of the loop do is stated by `FatWrite.Write` only.
- FatFile.Read: a layout with no sectors in a cluster, on which the code divides by zero, is excluded; so it is for `FatFile.ReadLoop` and everything above that reads.
- FatFile.ReadLoop: excludes a layout with no sectors in a cluster.
- FatFile.ReadFile: the flat content is stated for a chain that is proper in the table and holds the file size; for any other handle the loop itself is stated.
- FatRoundTrip.ReadTwice: the end of the joined read stays below 2^32 or the file fills its chain, as `FatRoundTrip.ReadCutAtSize` says; beyond it the two ways of reading are cut at different places.
- FatRoundTrip.WriteRun: is about runs with room for all bytes; single writes without room are covered by `FatWrite.WriteFile`.
- FatDir.ScanDirectory: takes a directory on a proper chain; so do `FatDir.FindEntry` and all path walks.
- FatDir.FindEntry: takes a directory on a proper chain.
- PathWalk.Enter: takes a directory on a proper chain.
- PathWalk.ResolveText: takes directories on proper chains along the path.
- PathWalk.Resolve: takes directories on proper chains along the path.
- FatCreate.CreateFile: needs a free cluster in the table or none on the whole device; otherwise the cluster taken lies behind the table, as `FatVolume.FullTableDamage` says.
- FatCreate.MakeDirectory: the same.
- FatOpen.Open: the same when a file is to be created, and directories on proper chains along the path.
- FatOpen.Mkdir: the same when a directory is to be created, and directories on proper chains along the path.
- FatNamed.OthersStillNamed: no directory on the way shares clusters with the changed one without being it; so it is for `FatNamed.CreatedIsNamed`, `FatNamed.WalkKept` and `FatNamed.OpenTwice`.
- FatNamed.OpenTwice: needs a slot and a free cluster for the first call, which fails without as `FatOpen.Open` says.
- FatListing.ListDir: is about walks that end, which `FatTrail.TrailExactly` and `FatTrail.ListingEndsExactly` say exactly; the counters are unbounded here and 32-bit in the code; what is printed is not modelled.
- FatListing.ListCluster: the same.
- FatListing.ListSector: the same.
- FatNamed.Load: takes an entry whose chain is proper and holds its size, and directories on proper chains along the path.
- MountRoute.MountThenRoute: what is reached is stated for paths of up to 251 bytes, which fit the buffer behind the bind; longer ones fail under the bind as `MountRoute.Route` says.
- MountRoute.BootMount: takes a rooted path of up to 251 bytes, for the same reason.
- VfsFile.RunReading: a run with a read that crosses 2^32 in a file with slack is left to the contract of `VfsFile.VfsRead`, read by read.
- VfsFile.RunWriting: the bytes are stated for runs whose writes find room and end below 2^32, write by write; single writes without are covered by `VfsFile.VfsWrite`, the positions in all runs by `VfsFile.RunAny`.
- PageAllocator.ScanWord: fewer than 2^31 - 64 pages, as for `PageAllocator.FindFreeRun`.
- PageAllocator.FindFreeRun: fewer than 2^31 - 64 pages (8 TiB), because the place inside a word is a 32-bit `int` that a longer jump overflows.
- PageAllocator.Manager.PmallocAligned: an alignment of 0 is a division by zero in the code and is excluded.
- PageAllocator.Manager.Pfree: a range that leaves the bitmap is excluded; the code would clear bits outside it.
- PageAllocator.Manager.SetRegion: a region past the last page is excluded; the code would change bits outside the bitmap.
- PageInit.Boot: physical and virtual addresses are the same, as the offset the code is built with by default says; usable entries are page-aligned and do not overlap, and memory reaches 2 MiB; the bitmap is its own array and not part of the memory it describes.
- KernelHeap.KernelHeap.Kmalloc: a request that would retry forever is excluded; `HeapRun.ComesBackWhen` says exactly which those are.
- KernelHeap.KernelHeap.Kfree: bytes that look like the header of a block in use must be one; the code cannot tell a forged header.
- KernelHeap.KernelHeap.Krealloc: sizes within 15 of 2^64 are excluded, where the rounded size wraps and the copy would leave the new block; so is a pointer to a free block that still carries the magic, which the code would copy and free again.
- HeapRun.Play: a run ends before a request that would retry forever.
- Device failures: a sector on the device is always read and written; only a sector off the device fails.
- `fat32_mount`, partition tables and volume detection: the layout is a parameter.
- FatNamed.SaveThenLoad: a slot and clusters for the bytes, and a path clear of the changed directory, as for `FatOpen.SaveNew` and `FatNamed.CreatedIsNamed`.
- FatAppend.OpenAndAppend: an existing file on a proper chain, with room, ending below 2^32; other writes are covered by `FatWrite.Write`.
- The second copy of the table: the code does not write it.
- `kcalloc`, `kmalloc_usable_size`, dumps, logs and statistics: wrappers and output.
- Locks and concurrent calls: every call runs alone.
- `vfs_open` behind the lookup, directories as open files, truncate, rename, unlink, stat and statfs: stubs or plain delegation.
- Hardware: ports, interrupts, screen, serial line and keyboard.
