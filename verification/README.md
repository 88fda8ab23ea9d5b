# A verified model of the EROFS builder and reader

This project models `mkfs_erofs`: the builder that turns a source directory into a chunk-based EROFS image with
a separate blob device, and the FUSE reader that serves the image. It proves, for every source tree, that the
reader shows what the builder was given, and says exactly where it does not.

Run `dafny verify dfyconfig.toml`.

## How the modules fit together

- `Bytes`, `Metadata` — little-endian fields, wrap-around, in-place copies; constants, rounding, xattr names and sizes.
- `Chunks`, `Dirents`, `Inodes`, `Xattrs` — the four on-disk codecs with their round trips.
- `Layout` — the metadata allocator, as a class and as a state machine over arbitrary runs.
- `DirBlocks`, `DirScan` — packing a directory into blocks and parsing it.
- `Reader`, `FileData`, `DirReader` — slices, inodes, flat and chunk data, directories and xattrs of any image.
- `Fuse`, `Handles` — lookup, directory handles and paging; handles under every interleaving of threads.
- `SourceTree`, `TreeBuild`, `BlobChunk`, `InodeBuild`, `Wiring`, `Mkfs`, `Image`, `Builder` — the builder: source trees
  and the inodes that represent them, the recursion with hard links, the deduplicating blob writer, inode
  serialization, parent links, placement, the image.
- `Paths`, `Capacity`, `HeaderRoom` — what the recursion makes of a source tree: which paths share an inode and in which
  order the inodes come; how many inodes and how many bytes of metadata; when the headers can hold them.
- `InodeRead`, `TreeRead`, `Shown`, `EndToEnd` — what the reader sees of an image that the builder wrote: single inodes,
  lookups and paths, the files of the source tree, and the theorem from source tree to mounted file system.

Loops of the source are methods with loops, proved against functions; `Vec<u8>` buffers of fixed size are arrays
written in place; objects that the source updates are classes. Errors are `Result` values, panics are `Err(Panic)`.
Address arithmetic wraps at 64 bits, as in a release build, so the reader's functions are total on every image.

## Main results

`EndToEnd.MakeFs` is the builder, from a source tree to an image and a blob. For every source tree and all arguments it
says which of four things happens, each exactly when a condition on the source tree and the arguments holds that can
be worked out beforehand: bad arguments, a file shorter than its recorded size, metadata that do not fit (a name of more
than 4084 bytes, or `Capacity.MetaBytes`, their size, beyond `isize::MAX`), or else the two files.
`EndToEnd.ShippedMounts` says that the reader opens these files, and that they are a mounted image of the source tree
exactly when `lstat` of the source path says directory and the headers have room for the directories
(`HeaderRoom.HeadersExact`); less than 4 GiB of metadata are little enough (`EndToEnd.SmallHeadersFit`).

`EndToEnd.ImageShowsTree` is about the mounted files: for every path of plain names the inode it ends at shows the
source file: mode, owner, link count, times, device number, xattrs, the listing of a directory, the target of a symlink,
and every read of a file at every offset, each with the exact condition under which it comes back; what a directory
lists under a name is what a lookup of the name finds; and the path ends nowhere exactly when the source has no such
entry.
`EndToEnd.NumbersTellFiles` adds the hard links: two paths show one inode number exactly when they name one file.
`EndToEnd.OpenByPath` is a client that gets there by lookups.

The parts stand on their own: for *any* inode reads compose, the two chunk readers agree, a lookup answers what a full
scan says, and the directory parser panics exactly under a stated condition; for *any* run the allocator is safe; for
*any* interleaving directory handles are safe.

Where the code does less than its documentation or its comments promise, the exact condition is proved:

- The check of the source path follows symlinks, the tree is built without following them. Given a symlink to a
  directory the builder succeeds, and the image holds the symlink and nothing else (`EndToEnd.LinkSourceShips`,
  `EndToEnd.LinkRootShows`); its root is listed if and only if `lstat` of the source says directory
  (`EndToEnd.RootListed`).
- A chunk index never decodes to a hole; the documented all-ones encoding reads as block 2^48-1 of device 65535
  (`Chunks.NullReadsAsAddress`, `Chunks.CodecExact`).
- Directory entries are in the promised order only when every child sorts after ".." (`DirBlocks.SortedExact`);
  a child called "-" does not.
- A compact inode keeps its mtime if and only if it lies in the 2^32 seconds that start at the epoch of the image
  (`Inodes.MtimeExact`); the mtime of a file older than the image reads 2^32 seconds too late (`Inodes.OldMtimeIsLost`).
  It keeps a link count of 1 and no nanoseconds (`InodeRead.AttributesPreserved`, `InodeRead.NanosecondIsLost`).
- Symlink targets of 4096 bytes or more are stored inline but looked for in block 0 (`InodeRead.SymlinkExact`,
  `InodeRead.LongTargetIsLost`). Linux has no targets that long.
- The xattr count has 16 bits, the lengths in an entry 8 and 16: larger lists do not come back
  (`Xattrs.IbodyRoundTripExact`, `Xattrs.LongSuffixIsLost`). Behind an xattr body of more than 262148 bytes the reader
  also looks for the chunk table and for the symlink target at least 256 KiB too early (`InodeRead.TailAddressExact`,
  `InodeRead.LargeBodyMovesTail`), and takes for them what it finds there (`InodeRead.FoundTail`).
- The chunk table follows the xattrs without the documented rounding to 8 bytes; builder and reader agree on that
  (`InodeRead.TableOffsetExact`, `InodeRead.OddBodyMovesTable`).
- One read is two reads in a row, and succeeds exactly when both do, but for a second read of no bytes
  (`FileData.ReadsCompose`): at the end of the whole blocks that one can fail alone (`FileData.EmptyReadFails`).
- Names longer than 4084 bytes panic the builder (`DirBlocks.PackExact`, `DirBlocks.LongNamePanics`). Linux has no names
  that long.
- With a root other than nid 0, nid 0 and the root share an inode number (`Fuse.InoNidExact`, `Fuse.NidZeroIsLost`); the
  builder's root is always nid 0.
- The directory parser panics on some images, exactly when a block of the directory does one of two things
  (`DirScan.PanicsExact`): it is a last block of 12 to 23 bytes whose first name offset is at least 24, so the second
  entry is read past its end (`DirScan.ShortTailPanics`); or the name of an entry starts inside the block and the next
  entry's name starts before it, all earlier ones being in order (`DirScan.SwappedNamesPanic`). No directory of the
  builder does (`DirScan.PackRoundTrip`).

## Model

| member | source | states |
|---|---|---|
| Bytes.FieldU64 | src/metadata/mod.rs:138-149 | a little-endian field written by a setter reads back as the value modulo 2^64 |
| Metadata.XattrPrefixFree | src/metadata/mod.rs:70-101 | no name starts with two of the six prefixes, so the order of the tests in the split cannot matter |
| Metadata.XattrSplitSound | src/metadata/mod.rs:84-101 | a split name is the prefix of its index followed by its suffix |
| Metadata.XattrSplitInverse | src/metadata/mod.rs:70-101 | splitting undoes prefixing for every index and every suffix |
| Metadata.XattrIbodySize | src/metadata/mod.rs:106-118 | the accumulating loop yields 12 plus the 4-aligned entry sizes, and 0 for an empty list |
| Metadata.IcountRecoversSize | src/metadata/mod.rs:120-127 | the stored 16-bit count recovers the body size if and only if the body is at most 262148 bytes; otherwise it falls short by at least 256 KiB |
| Xattrs.SerializeXattrs | src/build/inode.rs:348-380 | on a zeroed range the loop leaves exactly the encoded body and nothing else changed |
| Xattrs.ReadIbody | src/fs/meta.rs:258-297 | the parsing loop, on any bytes, returns the full names and values of the entries it reaches |
| Xattrs.EntriesRoundTrip | src/build/inode.rs:360-377 | encoded entries within the field widths parse back one for one, with no extra trailing entry |
| Xattrs.EntriesParsedImpliesFit | src/fs/meta.rs:262-295 | conversely, if the original names and values come back then every entry fitted its fields |
| Xattrs.IbodyRoundTripExact | src/fs/meta.rs:241-298 | xattrs survive encoding, stored count and parser if and only if every suffix has at most 255 bytes, every value at most 65535, and the body at most 262148 |
| Xattrs.LongSuffixIsLost | src/build/inode.rs:360-377 | an xattr with a suffix of 256 bytes does not come back under its name |
| Inodes.HeaderRoundTrip | src/metadata/inode.rs:197-225 | casting any bytes that start with a stored compact or extended header gives back the variant and every field |
| Inodes.FormatRoundTrip | src/metadata/inode.rs:353-364 | the format helpers and the accessors for layout and variant are inverse, for every layout and both nlink flags |
| Inodes.SetIcount | src/build/inode.rs:534-537 | overwriting bytes 2 and 3 of either header sets the xattr count and no other field |
| Inodes.MtimeExact | src/metadata/inode.rs:282-288 | the mtime reads back if and only if the inode is extended or the mtime lies in the 2^32 seconds that start at the epoch |
| Inodes.OldMtimeIsLost | src/build/inode.rs:408-408 | a compact inode of a file older than the image reads exactly 2^32 seconds late |
| Chunks.CodecExact | src/metadata/chunk.rs:19-39 | index encode and decode are inverse for every device if and only if the address is below 2^48 |
| Chunks.NullReadsAsAddress | src/metadata/chunk.rs:27-33 | the documented hole encoding decodes to block 2^48-1 of device 65535, never to a hole |
| Chunks.DecodedTableHasNoHole | src/fs/data.rs:138-138 | no decoded index is a hole, so the zero-fill branches of the readers cannot be reached from an image |
| Chunks.TableRoundTrip | src/build/inode.rs:423-428 | a stored table of addresses below 2^48 reads back index for index |
| Dirents.DirentRoundTrip | src/metadata/dir.rs:20-30 | a dirent read back anywhere in a buffer has the nid, name offset and type it was built with |
| Layout.RunsAreSafe | src/metadata/layout.rs:32-70 | after any run of allocations, paddings and writes all regions are aligned, in bounds and pairwise disjoint |
| Layout.RegionsHoldLastWritten | src/metadata/layout.rs:32-70 | after any run whose writes stay in their regions, in any order, each region holds exactly what was last written to it |
| Layout.WriteIsLocal | src/metadata/layout.rs:68-70 | a write inside one region changes its own bytes and no byte of any other region |
| Layout.AddressesAgree | src/fs/mod.rs:126-129 | for every run, the reader's address arithmetic from a nid or a start block finds exactly the bytes of the region |
| Layout.MetadataLayout.AllocInode | src/metadata/layout.rs:32-41 | the new state is the specified step; the offset is the old cursor and nid*32 equals it |
| Layout.MetadataLayout.PadToBlock | src/metadata/layout.rs:44-51 | the new state is the specified step |
| Layout.MetadataLayout.AllocDirData | src/metadata/layout.rs:55-65 | the new state is the specified step; startblk*4096 is 4096 plus the block-aligned offset |
| Layout.MetadataLayout.WriteAt | src/metadata/layout.rs:68-70 | the new state is the specified step: the data spliced in, nothing else moved |
| Layout.MetadataLayout.TotalBlocks | src/metadata/layout.rs:73-75 | the number of blocks, times 4096, is the rounded-up buffer length |
| DirBlocks.SerializeDirectory | src/build/dir.rs:19-73 | the nested packing loops produce the packing of '.', '..' and the children, or panic with it |
| DirBlocks.CountEntries | src/build/dir.rs:37-50 | the counting loop takes the longest prefix that fits into one block |
| DirBlocks.FillBlock | src/build/dir.rs:55-69 | filling a zeroed block in place gives dirents, names and zero padding |
| DirBlocks.PackExact | src/build/dir.rs:53-53 | packing succeeds if and only if every name has at most 4084 bytes |
| DirBlocks.LongNamePanics | src/build/dir.rs:53-53 | a name of 4085 bytes panics the packer |
| DirBlocks.PackSize | src/build/dir.rs:19-73 | directory data is whole blocks, and never empty for a directory |
| DirBlocks.SortedExact | docs/erofs-technical-internals.md:534-535 | the promised lexicographic order of a directory holds if and only if the children are sorted and come after '..' |
| DirBlocks.HyphenSortsBeforeDots | src/build/dir.rs:26-31 | a directory whose only child is named '-' is stored out of order |
| DirScan.FindNul | src/fs/meta.rs:103-107 | the scan for the end of the last name stops at the first NUL or at the block end |
| DirScan.ParseBlock | src/fs/meta.rs:86-116 | on any block, the entry loop delivers what the format assigns to it, with the same early exits and panics |
| DirScan.ParseDirEntries | src/fs/meta.rs:70-121 | the nested loops over any directory bytes deliver the specified entries and end the specified way |
| DirScan.StopIsDeliver | src/fs/meta.rs:113-115 | on any bytes, panicking ones included, a callback that stops early is given what a full scan is given, up to and including the first entry it wanted |
| DirScan.BlockPanicsExact | src/fs/meta.rs:86-116 | a scan of one block panics if and only if it is a short tail that claims a second entry, or an entry before any early exit has a name that ends before it starts inside the block |
| DirScan.PanicsExact | src/fs/meta.rs:76-119 | on any bytes, a full scan panics if and only if the raw name offsets of one of its blocks are of one of the two kinds |
| DirScan.StoppedPanicsExact | src/fs/meta.rs:86-116 | with a callback that stops, the parser panics if and only if a block makes it panic and no entry delivered before is wanted |
| DirScan.ShortTailPanics | src/fs/meta.rs:97-101 | a directory of 12 bytes whose entry has name offset 24 panics the parser |
| DirScan.SwappedNamesPanic | src/fs/meta.rs:97-113 | a directory of two entries whose second name starts before the first one panics the parser |
| DirScan.PackRoundTrip | src/fs/meta.rs:70-121 | packed entries with valid names are delivered exactly once each and in order, across any number of blocks, also when the last name ends at the block end |
| Reader.FlatReadsRefineContent | src/fs/meta.rs:125-231 | flat and inline reads give the slice of blocks plus tail; the one-slice read succeeds if and only if the range does not span both, then with the same bytes |
| FileData.ChunkArithmeticFits | src/fs/data.rs:9-28 | with 4096-byte blocks no chunk size, table size or extent byte address overflows 64 bits, for any file size |
| FileData.PieceExact | src/fs/data.rs:134-153 | one piece is readable if and only if each of its bytes is a hole or inside its device, and holds exactly those bytes |
| FileData.WriteChunks | src/fs/data.rs:111-162 | the streaming loop succeeds if and only if every byte is mapped and the sink has room; it writes exactly those bytes, a prefix of them on failure; the count is what was written and the break is never taken |
| FileData.ReadChunks | src/fs/data.rs:229-275 | the loop over a zeroed buffer succeeds on exactly the same ranges and leaves exactly the same bytes |
| FileData.WriteZeros | src/fs/data.rs:138-145 | zeros written in pieces of at most a block are a run of zeros of the full length |
| FileData.WriteChunkDataTo | src/fs/data.rs:111-162 | decodes the table and streams the range; fails exactly when the chunk read fails or the sink is full; what a failing sink has received is what a shorter read yields |
| FileData.ReadChunkData | src/fs/data.rs:229-327 | decodes the table and fills the buffer; same success and bytes as the streaming reader, also for the async twin |
| FileData.WriteFlatDataTo | src/fs/data.rs:67-109 | one write, or two when the range spans blocks and tail; succeeds exactly when the buffered flat read does and the sink has room; a failing sink has received what a shorter read yields |
| FileData.WriteFileDataTo | src/fs/data.rs:41-65 | the dispatch cuts the range at the end of the file; succeeds exactly when the read does and the sink has room, with the same bytes and their number; a failing sink has received what a shorter read yields; flat data with any block size, chunks with 4096-byte blocks |
| FileData.ReadFileData | src/fs/data.rs:168-221 | the buffered dispatch succeeds if and only if the specified read does, with its bytes; flat data with any block size, chunks with 4096-byte blocks |
| FileData.FileReadIsSlice | src/fs/data.rs:41-65 | every read of a stored file, at any offset and of any size, is content[min(offset,n)..min(offset+size,n)] |
| FileData.ReadsCompose | src/fs/data.rs:168-191 | for any inode of any image: a read of a+b bytes is the read of a followed by the read of b, and succeeds if and only if both do, a second read of no bytes aside |
| FileData.EmptyReadFails | src/fs/meta.rs:125-181 | an image that opens and an inode in it: the whole block can be read, and no bytes behind it cannot |
| DirReader.ForEachDirEntry | src/fs/meta.rs:16-37 | the fallback from one slice to two, and the scan with the given callback |
| DirReader.ScanAgreesWithListing | src/fs/fuse.rs:161-178 | on any image, whenever a directory lists, the early-stopping scan finds the first entry of that name in the list, and nothing exactly when there is none |
| DirReader.ScanFindsFirst | src/fs/fuse.rs:161-178 | on any image, errors and panics included: the early-stopping scan finds the first entry of that name that a full scan delivers, nothing when there is none, and fails exactly when the directory cannot be read or a full scan panics without having met the name |
| DirReader.ListingPanicsExact | src/fs/meta.rs:53-68 | listing a directory of any image panics if and only if its data can be read and have a block that makes the parser panic |
| DirReader.ReadXattrs | src/fs/meta.rs:241-298 | returns the parsed visible body, or the empty list when the count is 0 |
| Fuse.InoNidExact | src/fs/fuse.rs:40-54 | from nid to inode number and back is the identity if and only if the nid is not 0 or the root is nid 0 |
| Fuse.NidInoExact | src/fs/fuse.rs:40-54 | from inode number to nid and back is the identity if and only if the number is not one above the root nid or the root is nid 0 |
| Fuse.NidZeroIsLost | src/fs/fuse.rs:40-54 | in a mapping that the reader opens, with root nid 5, nid 0 has the inode number of the root and leads back to nid 5 |
| Fuse.ErofsFs.Lookup | src/fs/fuse.rs:161-178 | on any image, the answer of the stopping scan, which is what a full scan says, errors included; in a directory that lists, the first entry of that name, or ENOENT when the listing has none |
| Fuse.ScanAnswersListing | src/fs/fuse.rs:161-178 | on any image, the stopping scan answers what a full scan of the directory says, inode and error included; in a directory that lists, what the listing says |
| Fuse.ErofsFs.CreateDirHandle | src/fs/fuse.rs:112-123 | succeeds if and only if the inode lists, with the error of the listing otherwise; then the handle is the old counter, the counter advances modulo 2^64 and the table gains exactly the listing |
| Fuse.ErofsFs.OpenDir | src/fs/fuse.rs:248-262 | succeeds if and only if the inode is a directory that lists, with the first error otherwise; then the handle is the old counter, the counter advances and the table gains exactly the listing; else nothing changes |
| Fuse.ErofsFs.GetDirHandle | src/fs/fuse.rs:125-132 | the listing of a live handle, EBADF for any other |
| Fuse.ErofsFs.ReleaseDir | src/fs/fuse.rs:322-325 | the handle is gone, nothing else changes |
| Fuse.ErofsFs.ReadDir | src/fs/fuse.rs:264-290 | the sink ends up with the longest run of records from the offset that it was willing to take; the call fails exactly when the sink answered with an error |
| Fuse.ErofsFs.ReadDirPlus | src/fs/fuse.rs:292-320 | the same up to the first child inode that cannot be read, where the call fails without offering it; each record comes with the number and the inode of its own child |
| Fuse.ListAll | src/fs/fuse.rs:264-320 | any mix of readdir and readdirplus, each resumed at the last offset with any positive room, yields every entry exactly once in order and ends; child inodes must be readable only if the mix has a readdirplus |
| Fuse.Serve | src/fs/fuse.rs:112-132 | any sequence of calls that create and release handles takes the object through a run of the handle state machine, counter and table equal after every call |
| Handles.HandlesAreSafe | src/fs/fuse.rs:112-132 | in every interleaving, live and in-flight handles are distinct and below the counter, and a live handle yields the listing its opener took |
| Handles.ReleasedStaysDead | src/fs/fuse.rs:322-325 | a handle released while live is never valid again, whatever the threads do next |
| Handles.LiveUntilReleased | src/fs/fuse.rs:125-132 | a live handle keeps its snapshot until it is released |
| Handles.CounterValue | src/fs/fuse.rs:116-116 | after any run the counter is 1 plus the number of opens, modulo 2^64 |
| Handles.NumbersRepeatExactly | src/fs/fuse.rs:116-116 | two opens draw the same number if and only if 2^64 divides the distance between them |
| InodeBuild.SerializeInode | src/build/inode.rs:383-540 | the buffer, filled part by part, is header, xattr body and tail, with the xattr count set last |
| InodeBuild.CopyTable | src/build/inode.rs:424-428 | the loop over the chunk indexes writes the encoded table behind the front part |
| BlobChunk.BlobWriter.WriteFileChunks | src/build/blobchunk.rs:52-102 | fails if and only if the file is shorter than its size; earlier contents and addresses stay; every chunk is indexed; bytes written plus bytes saved equal the padded size |
| BlobChunk.BlobWriter.WriteChunk | src/build/blobchunk.rs:72-94 | a known digest costs nothing, a new one is appended block-aligned; the blob stays well formed |
| BlobChunk.PutAllKeeps | src/build/blobchunk.rs:65-100 | writing any chunks keeps every digest pointing to its chunk and never moves one |
| BlobChunk.PaddedFile | src/build/blobchunk.rs:74-75 | only the last chunk of a file is padded: the chunks fill the block-rounded file size |
| BlobChunk.BlobServesFile | src/fs/data.rs:134-160 | every byte of every file written is where its table says, however many files came before and after, unless two different chunks share a digest |
| BlobChunk.IndexesAddressable | src/build/blobchunk.rs:96-99 | a blob of at most 2^48 blocks only hands out addresses that an index can hold |
| Wiring.SetParentNids | src/bin/erofs-mkfs.rs:176-217 | for every inode list: each directory gets the nid of the last directory that lists it, the root its own by default, and nothing else changes |
| Wiring.GatherParents | src/bin/erofs-mkfs.rs:186-204 | applying the gathered infos in order assigns each inode its last container |
| Wiring.TreeParents | src/bin/erofs-mkfs.rs:175-217 | when each directory is listed exactly once, its parent is that container, and the root's is itself |
| Mkfs.AllocInodes | src/bin/erofs-mkfs.rs:81-86 | every inode gets the slot behind its predecessors, with the matching nid, and is otherwise unchanged |
| Mkfs.SlotsOrdered | src/bin/erofs-mkfs.rs:81-86 | the slots do not overlap |
| Mkfs.GatherDirs | src/bin/erofs-mkfs.rs:94-118 | the infos of all directories, in order, with the nids of their children |
| Mkfs.PlaceDir | src/bin/erofs-mkfs.rs:121-124 | the packed directory is appended as whole blocks, or the builder panics on a name or on the size |
| Mkfs.PlaceDirs | src/bin/erofs-mkfs.rs:120-136 | succeeds if and only if all names fit blocks and the buffer fits memory; all data are stored one behind the other and the inodes point to them |
| Mkfs.WriteInodes | src/bin/erofs-mkfs.rs:139-143 | every inode's bytes stand in its slot and nothing behind the slots has changed |
| Image.WriteImage | src/build/image.rs:13-69 | block 0 with superblock and device slot, the buffer, padding to whole blocks |
| Image.SuperblockFields | src/metadata/superblock.rs:68-97 | magic, block size, root nid, epoch and metadata address can be read back at their offsets |
| Image.ImageOpens | src/fs/mod.rs:39-85 | the reader accepts every written image and finds the superblock as it was given |
| Builder.BuildImage | src/bin/erofs-mkfs.rs:75-165 | for any inode list: succeeds if and only if everything fits; the inodes keep their contents, the result holds every inode and every directory at its place and is an image when the first inode is a directory; the root-nid assertion never fires |
| Builder.WindowInBounds | src/fs/meta.rs:9-13 | the 64-byte window is inside the image at every slot, because the root directory's data follow |
| Builder.FinalAt | src/bin/erofs-mkfs.rs:81-136 | what becomes of each inode: its place, its parent link and the place of its data, nothing else |
| Builder.StartBlock | src/bin/erofs-mkfs.rs:123-132 | a directory's start block is the block of its data in the image |
| Builder.BufferHolds | src/bin/erofs-mkfs.rs:120-143 | the finished buffer behind block 0 holds every inode at its nid and every directory at its start block, with strictly increasing nids, whatever the first inode is |
| Builder.BufferIsImage | src/bin/erofs-mkfs.rs:120-143 | when the first inode is a directory, every inode also has the 64 bytes behind it that the reader maps |
| Builder.BuildableExact | src/build/dir.rs:53-53 | the builder goes through if and only if every name has at most 4084 bytes and slots and directories fit into memory |
| Builder.BuildsWhenSmall | src/bin/erofs-mkfs.rs:120-136 | one block per directory entry is a bound that can be checked beforehand |
| InodeRead.ReadInodeExact | src/fs/meta.rs:9-13 | the reader gets back the header that was written if and only if its values fit the fields of the variant |
| InodeRead.HeaderFitsExact | src/build/inode.rs:383-456 | which values fit: 32-bit size and 16-bit ids in a compact header, a 48-bit start block in any |
| InodeRead.AttributesPreserved | src/metadata/inode.rs:267-340 | mode, owner, inode number, size and device number read back; mtime, link count and nanoseconds each exactly under their own condition |
| InodeRead.NanosecondIsLost | src/build/inode.rs:383-456 | a compact inode of a file changed at nanosecond 1 reads another nanosecond |
| InodeRead.XattrsExact | src/fs/meta.rs:241-298 | the xattrs of an inode in an image read back if and only if entries and body fit |
| InodeRead.TailAddressExact | src/metadata/mod.rs:120-127 | the reader looks for chunk table, symlink target or inline data where the builder put them if and only if the xattr body is at most 262148 bytes; otherwise at least 256 KiB too early |
| InodeRead.LargeBodyMovesTail | src/metadata/mod.rs:120-127 | five xattrs of 65535 bytes make the reader look for the tail at least 256 KiB too early |
| InodeRead.SymlinkExact | src/fs/meta.rs:234-238 | a symlink reads back if and only if its target is shorter than 4096 bytes and stands behind the visible xattr body; it does behind every body of at most 262148 bytes |
| InodeRead.LongTargetIsLost | src/fs/meta.rs:234-238 | a symlink to 4096 times one letter does not read back |
| InodeRead.TableOffsetExact | docs/erofs-technical-internals.md:338-350 | the place where the builder puts the table is the documented one if and only if the xattr body fills whole 8 bytes; the place where the reader looks is, if and only if the body also is at most 262148 bytes |
| InodeRead.OddBodyMovesTable | docs/erofs-technical-internals.md:338-350 | with the one xattr "user.a" the table is at byte 52 of the inode, not at the documented 56 |
| InodeRead.FileReads | src/fs/data.rs:41-65 | whenever the table stands where the reader looks for it, every read of a regular file in an image gives the slice of its content |
| TreeRead.OpenMounts | src/fs/mod.rs:39-85 | every image of fitting inodes opens as a mounted tree |
| TreeRead.DirectoryLists | src/fs/meta.rs:53-68 | each directory of an image lists as itself, its parent and its children in order |
| TreeRead.LookupIsStep | src/fs/fuse.rs:161-178 | for every directory and every name, lookup is one step in the tree: '.', '..', the first child of that name, or ENOENT |
| TreeRead.ListingsLead | src/fs/fuse.rs:161-178 | in every directory of a mounted image and for every name, what is listed first under the name is the nid of the inode that the longer path leads to, and nothing exactly when the path leads nowhere |
| TreeRead.ResolvePath | src/fs/fuse.rs:161-178 | resolving any path by repeated lookups reaches exactly the inode the path names, or reports ENOENT; behind a regular or an empty file it reports InvalidData or ENOENT |
| TreeRead.DotDotClimbs | src/bin/erofs-mkfs.rs:176-217 | in the inode tree, following ".." from any directory is at the root after n steps if and only if n is at least its depth |
| TreeRead.ClimbToRoot | src/fs/fuse.rs:161-178 | a client of a mounted image that looks up ".." n times from any directory is at inode number 1 if and only if n is at least the depth of the directory |
| TreeRead.FinalParentsRight | src/bin/erofs-mkfs.rs:88-89 | in the inodes that are written every '..' is the container's nid |
| TreeBuild.BuildTree | src/build/inode.rs:94-113 | succeeds if and only if no file is shorter than its recorded size; then inodes and blob are exactly those of the functional form of the recursion |
| TreeBuild.TreeBuilder.Recurse | src/build/inode.rs:116-297 | fails exactly when a file is too short; otherwise inodes, counter, remembered links and blob are those of the functional form |
| TreeBuild.TreeBuilder.AddEntry | src/build/inode.rs:174-212 | the same for one entry: a further link to a known inode, or a new subtree that is remembered |
| TreeBuild.NodeRight | src/build/inode.rs:116-297 | whatever was built before: the functional form leaves it alone, keeps every remembered link right, and appends one tree whose root represents the file |
| TreeBuild.TreeRepresents | src/build/inode.rs:94-113 | for every source tree and every digest function, the inodes are a tree that represents the source |
| Paths.PathLands | src/build/inode.rs:174-212 | a path of the source to a file with several links leads to the one inode remembered for its device and number; to any other file, to an inode of its own among those appended for the entry it is under |
| Paths.TwoPaths | src/build/inode.rs:174-212 | two different paths lead to one inode if and only if they name one non-directory with several links; files with one link come in depth-first pre-order |
| Paths.TreePaths | src/build/inode.rs:91-113 | the same for the list of a whole source tree, from its root |
| Capacity.PackedBlocks | src/build/dir.rs:19-73 | packed directory entries take exactly the number of blocks that is worked out from the lengths of their names |
| Capacity.NodeFits | src/build/inode.rs:116-297 | the inodes built for a file are as many, need as many slot and directory bytes, and remember the same links as is worked out from the source alone; all their names fit if and only if the source names do |
| Capacity.TreeFits | src/bin/erofs-mkfs.rs:75-136 | placing the inodes of a source tree goes through if and only if every source name has at most 4084 bytes and the bytes worked out from the source fit a buffer; and the metadata take exactly that many bytes |
| Capacity.EmptyTree | src/bin/erofs-mkfs.rs:75-136 | an empty source directory without xattrs meets the condition: its metadata take two blocks |
| HeaderRoom.HeadersExact | src/build/inode.rs:383-456 | for every source tree without names that are too long: all headers can hold sizes and start blocks if and only if no directory with a small header has 4 GiB of data and the last directory starts below block 2^48, both worked out from the source |
| SourceTree.RepresentsKept | src/build/inode.rs:116-297 | later inodes and later blob writes never disturb what represents a file |
| SourceTree.KeptNames | src/build/inode.rs:12-34 | the kept xattrs, read back with their prefixes, have the names they had; the others are dropped |
| SourceTree.SubtreeIsTree | src/build/inode.rs:91-98 | the inode list is a tree: each directory is listed exactly once, and containers come first |
| EndToEnd.MakeFs | src/bin/erofs-mkfs.rs:36-173 | for every source tree, whatever stat says of a symlink, and all arguments: which of four things happens, each if and only if its condition holds: bad arguments, a file shorter than its size, metadata that do not fit, or image and blob of the tree |
| EndToEnd.ShippedIsMade | src/bin/erofs-mkfs.rs:64-173 | the two files are an image of the source tree if and only if lstat of the source says directory, and the image is as long as worked out from the source |
| EndToEnd.PathsAgree | src/build/inode.rs:116-297 | a path leads in the inodes to what represents the file it leads to in the source tree, or fails the same way |
| Shown.InodeShows | src/fs/meta.rs:9-13 | an inode made from a file, present in the image, shows its attributes, device number and listing; its xattrs if and only if they are within the limits; behind a body within its limit its target if and only if it is shorter than a block, and its content when no digest is shared |
| EndToEnd.SmallImagesFit | src/build/inode.rs:135-138 | in an image below 4 GiB every header fits, directories included |
| EndToEnd.SmallHeadersFit | src/build/inode.rs:135-138 | less than 4 GiB of metadata meet the condition on the headers |
| EndToEnd.MadeMounts | src/fs/mod.rs:39-85 | every image made from a source tree opens, with right parents everywhere |
| EndToEnd.ShippedMounts | src/fs/mod.rs:39-85 | what the builder makes opens, and is a mounted image of the source tree if and only if the source is a directory and its headers have room |
| EndToEnd.LinkSourceShips | src/bin/erofs-mkfs.rs:52-55 | the symlink to "." meets the conditions under which the builder succeeds, when stat sees a directory |
| EndToEnd.LinkRootShows | src/build/inode.rs:124-127 | what the builder makes of a source path that is a symlink holds one inode, which shows the symlink under the number of the root |
| EndToEnd.RootListed | src/fs/fuse.rs:248-262 | when the headers have room, the root of the image is listed if and only if lstat of the source says directory; else the reader says that it is none |
| EndToEnd.OpenRoot | src/fs/fuse.rs:248-262 | when the headers have room, a client of the two files gets a handle on the root if and only if lstat of the source says directory, and ENOTDIR otherwise |
| EndToEnd.ImageShowsTree | src/fs/fuse.rs:161-178 | for every source tree and every path of plain names, the mounted image shows the file the path names, each part exactly when it is within its limit, a directory with a listing that leads where lookups lead, and nothing where the source has nothing |
| EndToEnd.NumbersTellFiles | src/build/inode.rs:174-212 | two different paths of plain names show one inode number if and only if they are names of one file with several links |
| EndToEnd.OpenByPath | src/fs/fuse.rs:161-178 | a client that resolves a path by lookups ends at the inode number that the image has at that path, whose inode shows the source file, or gets ENOENT; behind a regular or an empty file it gets an error |

## Left out

- `blkszbits` is taken to be 12 in the chunk loops, as the builder writes it; with another block size the reader mixes its chunk size with 4096-byte addresses. Flat data do not depend on it.
- Which error a failed chunk read returns: `FileData.ReadChunkData` and `FileData.WriteChunkDataTo` say exactly when they fail, not with which kind.
- `usize` overflow inside the allocator: its cursor is unbounded; `Mkfs.PlaceDirs` and `Builder.BuildImage` panic beyond `isize::MAX`, as a `Vec` does.
- Growable `Vec`s (`layout.buf`, the inode list, the output of the packer, the blob file) are sequence-valued fields and variables, so spare capacity and reallocation are not modelled.
- Bit operations on disjoint fields, masks and shifts are written as arithmetic, `round_up` at the alignments it is called with.
- The async chunk reader is the sequential body of `FileData.ReadChunks`; its awaits only yield.
- Callbacks are predicates (directory scan) or scripted sinks (directory records, writers); a callback cannot change the file system.
- The digest is an arbitrary function of the chunk; collision freedom is asked of the chunks of the file that is read, not of the function.
- The order of `read_dir` and its sort: source directories come sorted. Names are the bytes after the lossy UTF-8 conversion, so two different invalid names may be one name here as in the code.
- `lstat`, `readlink`, xattr calls and their failures: the source tree is given with its metadata; a file shorter than its recorded size is modelled, other I/O errors are not.
- Source trees with sockets and fifos are covered as files without data; device numbers are kept as 32 bits.
- `read_dir` with lossy names, `make_stat`, `statfs`, `getattr`, `getxattr`, `listxattr`, the read-only error stubs: field copies and filters over what is modelled.
- EndToEnd.OpenByPath: leaves open what a path does that goes on behind a symlink with a target, because the code then takes the target for directory entries; `Fuse.ErofsFs.Lookup` says which. The kernel never asks for it.
- Shown.InodeShows: that no two chunks share a digest is sufficient for the content of a file; two chunks with one digest, one a zero-padded prefix of the other, would do as well.
- FUSE session, threads, signals, command-line parsing, mmap and file opening.
- Superblock fields that the reader does not use are written but not read back; no checksum is computed, as in the code.
- A 32-bit target, where `usize` is narrower than the addresses.
