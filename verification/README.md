# iQUIK loader: a Dafny model of its data path

A Dafny model of the parts of the iQUIK boot loader that turn a device and a
path into bytes in memory, and of the pieces of text and memory handling they
rest on. `dafny verify dfyconfig.toml` checks all of it.

| file | models |
|---|---|
| `Partition.dfy`, `MacMap.dfy` | `part_read`, `disk_read` and the search of a Macintosh partition map |
| `BlockMap.dfy` | where ext2 keeps inodes and file blocks |
| `BlockCache.dfy` | the two one-entry caches of indirect blocks |
| `FileData.dfy`, `ReadLoop.dfy` | the bytes of a file and the loop of `ext2fs_read_file` |
| `Directory.dfy`, `PathLookup.dfy`, `Volume.dfy` | directory records, symbolic links, path resolution, mounting and loading |
| `OnDisk.dfy` | the same structures as bytes at numbered positions of the volume |
| `Ext2.dfy` | the ext2 reader with its globals, buffers and caches, refining the files above |
| `Moves.dfy` | `memcpy`, `memmove` and `memset` with their word and byte phases |
| `ConfigTokens.dfy`, `ConfigTables.dfy`, `ConfigAnswers.dfy`, `Config.dfy` | the configuration language: tokens, meaning, answers read off the settings, and the parser with its static state |
| `CStrings.dfy`, `Numbers.dfy`, `PathSpec.dfy` | C strings, `strtol`, the number printers, `device:part/path` |
| `Allocator.dfy` | the bump allocator |
| `Elf.dfy` | finding and placing the kernel image |
| `Bytes.dfy`, `Arithmetic.dfy` | bytes, results, memory images; facts about division |

## How to read it

* Code that changes state is a method on a class or an array, with the branches
  and loops of the C or assembly code. Its contract equates results and new
  state with a function that knows nothing of buffers, caches or push-back, and
  lemmas then say what that function means.
* Functions that code and references share are tied down by statements that do not
  use them: bytes at positions (`OnDisk`, `MacMap`, `Elf`), settings by index
  (`ConfigAnswers`), characters (`ConfigTokens`, `Numbers`, `PathSpec`).
* A device is a sequence of bytes some of which cannot be read. A read delivers
  the bytes before the first unreadable one, so a short read can tear a buffer.
  All references work on the view of one partition; they give the same answer
  wherever the partition lies on the disk.
* `Err(Undefined)` marks inputs on which the C code loops forever, divides by
  zero, follows a null pointer, or writes past a buffer (and file positions
  whose 32-bit sums would wrap). Methods require that their reference does not
  end in it; that follows from well-formed directories (`FindEnds`, `LoadEnds`,
  `RoomIs`). Every other error is an ordinary result.
* Where `malloc` may fail, the reader may report that instead of the reference's
  outcome (`OutOfMemory`, `Starved`); what it does read is right all the same.
* Sectors, cache keys, block numbers, `malloc`'s address sum and the ELF sums
  are 32-bit and wrap as in the code.

## What the code does that one might not expect

* The block caches are keyed by sector only and survive a mount.
  `OtherPartition` and `Mount` say when answers are wrong then; `Close` makes the
  caches right for any volume. A short read that changes a kept block is the other
  way to lose coherence (`FetchIsRead`, `TornEntry`).
* A zero pointer to a pointer block is not a hole; a block whose shifted number is 0
  in 32 bits is one (`ZeroPointerBlock`).
* `ext2fs_read_file` clamps the length against the file size, not against what
  is left after the position (`ClampRight`); a hole in the last block is zeroed up
  to the end of the block, so the buffer has to be larger (`ReachFits`, `ReadFile`).
* The in-block index of an inode is taken from the inode number, which on volumes
  with several groups is right exactly when blocks divide groups evenly
  (`OffsetIndexRight`). From inode 2^31 + 1 on, and for inode 0, the remainder is
  negative and the offset, unless it is 0, misses the block (`NegativeIndex`).
* Deleted names, which have inode 0, are found like any other (`DeletedNames`).
* A link whose target has no component is found as a link, not as a directory
  (`EmptyTarget`, `FindIsResolve`). A link to itself is reported as not found, not
  as a loop (`SelfLink`).
* A quoted `=` is still taken for the separator (`ItemsRoundTrip`), and decoded
  tokens of 200 characters are refused.
* An image section without a label and without a path makes a lookup follow a
  null pointer (`NamelessFails`, `DefaultMeans`, `ImageAlone`).
* `printknu` keeps 28 bits from the second digit on (`DigitsExact`).
* `realloc` of the last block checks neither alignment nor the end of the arena
  (`ResizeSafe`); of any other block it copies all bytes even to a smaller one
  (`MoveSafe`, `MoveLeaves`); `malloc` accepts a size whose end wraps (`MallocSafe`);
  `free(NULL)` before the first `malloc` moves the pointer (`FreeNull`).
* A read may not end on the last byte of a partition (`LastByteRefused`), so the last
  block of a volume cannot be read (`LastBlockRefused`).

## Model

| member | source | states |
|---|---|---|
| `Partition.DiskRead` | loader/disk.c:45-74 | the buffer receives exactly the bytes before the first unreadable one, at the given offset, and nothing else changes |
| `Partition.PartRead` | loader/part.c:195-222 | reading through the disk at the partition's start equals reading the partition on its own: same success, same error, same bytes in the buffer also after a short read, and nothing after a refusal |
| `OnDisk.ReadIsLying` | loader/part.c:195-222 | a read gives s exactly when s lies at 512 times the sector plus the offset and something follows it |
| `BlockMap.LastByteRefused` | loader/part.c:195-222 | a read inside the partition is refused exactly when it takes the last byte |
| `BlockMap.LastBlockRefused` | loader/part.c:195-222 | so of a volume of whole blocks the last one, and no other, is refused |
| `MacMap.SearchMap` | loader/part.c:58-87 | a partition is found exactly when some entry is wanted with only entries before it in the map, and it is the one that entry describes; the search stops short exactly when a sector of the map that it comes to cannot be read |
| `MacMap.ReadMacPartition` | loader/part.c:34-88 | the same from the driver descriptor on, with all errors |
| `MacMap.SectorBytes` | loader/part.c:62-64 | sector i of the map is the 512 bytes at i times the sector size |
| `MacMap.EntryRange` | loader/part.c:80-83 | start and length of a partition from the words at bytes 8 and 12 of its entry |
| `MacMap.EntryCount` | loader/part.c:70-72 | the number of entries from the word at byte 4 of the first |
| `MacMap.EntryWanted` | loader/part.c:76-79 | an entry is wanted by its number, or by 0 with bit 3 of the word at byte 88 and the processor set |
| `MacMap.Powerpc` | loader/part.c:79 | the processor is powerpc in either case of letters, with its NUL, at byte 120 |
| `BlockMap.BlockHasSlot` | loader/ext2fs.c:285-412 | every file block below 12+p+p*p has a direct, single or double indirect slot with indices in range |
| `BlockMap.SlotsDistinct` | loader/ext2fs.c:285-412 | no two slots belong to one file block |
| `BlockMap.WalkFollowsSlot` | loader/ext2fs.c:285-412 | the pointer walk for the file block of a slot reads exactly that slot |
| `BlockMap.WalkBeyondSlots` | loader/ext2fs.c:415-417 | every larger file block is reported as corruption |
| `OnDisk.BlockIs` | loader/ext2fs.c:60-67 | block sizes in bytes, and where a block starts with 32-bit sectors |
| `OnDisk.PointerIs` | loader/ext2fs.c:137-145 | pointer i of an inode is the little-endian word at byte 40+4*i |
| `OnDisk.WalkIsOnDisk` | loader/ext2fs.c:285-412 | the walk gives block b exactly when the bytes of the inode and of its blocks of pointers say b: words from byte 40 of the inode, the block at byte 88, the blocks named in the block at byte 92 |
| `BlockMap.ZeroPointerBlock` | loader/ext2fs.c:314-317 | below a zero pointer the file has a hole exactly when the block that the word read from block 0 names has sector 0 in 32 bits |
| `BlockMap.OffsetIndexRight` | loader/ext2fs.c:243-246 | on a volume of n inodes, up to 2^31, the computed offsets are all right if and only if there is one group or inodes per block divides inodes per group |
| `BlockMap.NegativeIndex` | loader/ext2fs.c:234-246 | from index 2^31 on, which includes inode 0, the offset is 0 or lies behind the block, and is right only where both the number and the place in the group are multiples of a block |
| `BlockMap.InodeDefined` | loader/ext2fs.c:235-246 | reading an inode divides by zero exactly on volumes with empty groups or inodes that do not fit into a block |
| `BlockMap.InodeAddress` | loader/ext2fs.c:192-260 | with even tables an inode is read from table_start*blocksize + ((ino-1) mod inodes_per_group)*inode_size, inside its table |
| `BlockMap.InodesDisjoint` | loader/ext2fs.c:243-246 | two different inodes occupy disjoint bytes, in one group and, where the tables of groups do not overlap, everywhere |
| `OnDisk.InodeIsOnDisk` | loader/ext2fs.c:192-260 | what is read for an inode number are the fields of the 128 bytes that group descriptor and table place for it |
| `OnDisk.InodeFields` | loader/ext2fs.c:119-136 | mode and size from bytes 0 and 4 |
| `BlockCache.FetchIsRead` | loader/ext2fs.c:291-327 | a lookup through an agreeing buffer gives the bytes on disk, and the buffer stays agreeing if and only if no short read changed the block it kept |
| `BlockCache.StepIsWalk` | loader/ext2fs.c:272-424 | from coherent caches one call gives the uncached walk's answer or a failed malloc, and leaves the caches coherent if and only if it tore no kept block |
| `BlockCache.RunIsWalks` | loader/ext2fs.c:272-424 | over every run of calls on one partition, mixing inodes, block sizes and kinds of indirection, failed ones included, each result is the uncached walk's until a lookup has torn a block, which never happens where each block is delivered whole or not at all |
| `BlockCache.OtherPartition` | loader/ext2fs.c:314-327 | whatever a buffer holds, it answers every lookup in a partition rightly if and only if its block is the one there, and a single lookup unless key and size hit and the block differs |
| `BlockCache.TornEntry` | loader/ext2fs.c:316-322 | after a short read of another block the kept one is wrong exactly when the delivered bytes differ from it |
| `BlockCache.KeyNeverSentinel` | loader/ext2fs.c:184-187 | a key is even, so it never equals the mark for no key |
| `BlockCache.Buffer.Fit` | loader/ext2fs.c:291-312 | the buffer keeps block and key exactly when its size already fits, and otherwise comes back without a key, or not at all when malloc fails |
| `BlockCache.Buffer.Load` | loader/ext2fs.c:291-327 | allocation, resizing, lookup and reading of a buffer step as specified, with the failed malloc and the failed read |
| `BlockCache.Buffer.Drop` | loader/ext2fs.c:901-913 | the buffer is empty and without a key |
| `FileData.ReadIsBytes` | loader/ext2fs.c:440-494 | a range is readable exactly when each of its bytes is, and then gives those bytes, holes as zeros |
| `FileData.ReadSplits` | loader/ext2fs.c:440-494 | one read of a range equals two reads of adjacent pieces, in success and in bytes |
| `FileData.HeldIsRead` | loader/ext2fs.c:440-494 | a file that holds bytes at a position reads as these bytes |
| `FileData.FileByteIsCell` | loader/ext2fs.c:479-489 | byte k of a file is the byte at its place in its block, which must not end the volume, or 0 where the sector is 0 |
| `FileData.ReadIsCells` | loader/ext2fs.c:440-494 | a range reads as s exactly when every byte of s is on the volume where the file has it |
| `OnDisk.FileIsOnDisk` | loader/ext2fs.c:427-495 | the same from the 128 bytes of the inode |
| `FileData.ReachFits` | loader/ext2fs.c:463-491 | a buffer of the length read is enough if and only if the range ends with its last block or that block is not a hole |
| `FileData.ClampRight` | loader/ext2fs.c:440-443 | clamping against the file size is right if and only if nothing is asked for, the file is empty, or the range starts the file or ends in it |
| `ReadLoop.TurnSizes` | loader/ext2fs.c:445-477 | skipfirst and blockend of each turn take exactly the part of the range in that block |
| `ReadLoop.TurnFits` | loader/ext2fs.c:463-491 | no turn writes past the reach of the read, and zeroing a hole in the last block goes exactly that far |
| `ReadLoop.StageStep` | loader/ext2fs.c:447-492 | a turn appends the piece of its block, or fails with the error of the whole read |
| `ReadLoop.StageEnd` | loader/ext2fs.c:447-494 | when the turns are done, what was appended is the whole range |
| `Directory.ScanIsFirst` | loader/ext2fs.c:498-641 | on any list of records that fills the directory, in any block layout in which no header or name ends in a hole, the scan ends with the first record that has the name |
| `Directory.FirstNamedFinds` | loader/ext2fs.c:531-640 | it gives the node, or the error, of the lowest record that has the name or whose type cannot be read, and not-found exactly when there is none |
| `Directory.FoundKind` | loader/ext2fs.c:548-600 | the first record with the name gives its inode number as a file, directory or link for type 1, 2 or 7, unknown for others, and for type 0 by the top bits of the mode |
| `Directory.DeletedNames` | loader/ext2fs.c:531-600 | deleted records are not skipped: the answer is that of the names in use if no deleted record is the first to end the scan, and otherwise differs when its type can be told |
| `Directory.ScanEnds` | loader/ext2fs.c:520-640 | on a chain of records that ends where the directory does the scan ends, whatever name is sought and whatever cannot be read |
| `Directory.HeldIsChain` | loader/ext2fs.c:520-640 | every directory written as such records is such a chain |
| `Directory.LinkDefined` | loader/ext2fs.c:660-683 | reading a link overruns its memory exactly when the link is longer than 60 bytes and zeroing its last hole reaches further, or sizes wrap |
| `OnDisk.ShortLink` | loader/ext2fs.c:670-672 | the text of a link of up to 60 bytes is in its inode from byte 40, up to a NUL |
| `OnDisk.LongLink` | loader/ext2fs.c:673-683 | that of a longer one is the contents of the file, up to a NUL |
| `Directory.RecordIsRead` | loader/ext2fs.c:524-601 | header, name and kind of an encoded record are decoded, and the rest of the chain follows |
| `Directory.ScanFaithful` | loader/ext2fs.c:548-589 | a node found with its inode loaded carries the inode on disk |
| `PathLookup.CompsOfJoined` | loader/ext2fs.c:704-724 | splitting a path written from names gives the names |
| `PathLookup.CompsAreNames` | loader/ext2fs.c:704-724 | components are never empty and hold no slash |
| `PathLookup.LinkMeans` | loader/ext2fs.c:763-771 | a link whose text is a path of names means that path, from the root with a leading slash and from its own directory without |
| `PathLookup.LinkFollowed` | loader/ext2fs.c:741-779 | the loader looks that path up there, counts the link, and turns errors into not-found |
| `PathLookup.ChainLimit` | loader/ext2fs.c:741-749 | a chain of links is followed to its end exactly if it has at most seven, counting those before |
| `PathLookup.WalkIsResolve` | loader/ext2fs.c:714-791 | what the nested lookups do with components equals what rewriting the path does with them in front of any further components, with the link count, unless they end at a link without components; among directories without such links always |
| `PathLookup.FollowIsResolve` | loader/ext2fs.c:741-779 | the same for following one link |
| `PathLookup.FoundIsMeant` | loader/ext2fs.c:689-794 | on every volume, what a lookup finds is what the path means within seven links, with the same inode and type, unless it is reported as a link |
| `PathLookup.FindIsResolve` | loader/ext2fs.c:689-794 | all lookups succeed exactly when their paths resolve, with the same inode and type, if and only if every readable link in the directories below the root names a component |
| `PathLookup.FindFileIsResolve` | loader/ext2fs.c:797-825 | with a wanted type nothing else than what the path means is found, and it is found if all readable links name something |
| `PathLookup.EmptyTarget` | loader/ext2fs.c:709-712 | for every readable link without components the result differs from the usual meaning, and any further component fails |
| `PathLookup.SelfLink` | loader/ext2fs.c:745-777 | a link to itself ends as not found, after eight counts |
| `PathLookup.WalkEnds` | loader/ext2fs.c:714-791 | among directories that are chains of records, with links that fit, every nested lookup ends and stays among them |
| `PathLookup.FindEnds` | loader/ext2fs.c:741-781 | if the directories below root and start are well formed, a lookup of any path ends on every graph of links, with at most seven followed and eight counted |
| `PathLookup.FindCount` | loader/ext2fs.c:741-748 | on any volume a lookup counts at most eight links in all its nested calls, and one that succeeds at most seven |
| `PathLookup.LookupsMean` | loader/ext2fs.c:797-825 | on volumes with well-formed directories all lookups end, and all mean what their paths mean if and only if readable links name something |
| `Volume.LoadIsContents` | loader/file.c:83-101 | from every mounted volume what loads is the regular file the path means, byte for byte; if readable links name something, a path loads exactly when it means a regular file whose bytes are all readable |
| `OnDisk.LoadedIsOnDisk` | loader/file.c:83-101 | what loads is, byte for byte, what the volume has for the inode of the regular file that the path means |
| `Volume.EmbeddedLoad` | loader/part.c:195-222 | a path loads the same wherever the partition lies on the disk |
| `Volume.MountEnds` | loader/ext2fs.c:947-983 | mounting is undefined exactly for an ext2 superblock with blocks above 64 KiB, empty groups or inodes larger than blocks |
| `OnDisk.MountIsOnDisk` | loader/ext2fs.c:947-983 | the file system comes from the fields of the superblock at byte 1024, by position, and the root from the bytes of inode 2 |
| `Volume.OpenEnds` | loader/ext2fs.c:850-885 | with well-formed directories opening always ends |
| `Volume.LoadEnds` | loader/file.c:83-101 | so loading ends, with the contents or with an error the loader reports |
| `Ext2.Reader.ReadBlock` | loader/ext2fs.c:272-424 | caches and result step as specified; from coherent caches the result is the uncached walk's, and they stay coherent if and only if no kept block is torn |
| `Ext2.Reader.ReadSingle` | loader/ext2fs.c:289-331 | the single indirect branch steps the first cache as specified |
| `Ext2.Reader.ReadDouble` | loader/ext2fs.c:333-412 | the double indirect branch steps both caches as specified |
| `Ext2.Reader.CopyBlock` | loader/ext2fs.c:456-491 | the piece of one block arrives in the buffer behind what is there, or the error of reading it or of a full memory comes back; a hole zeroes all of its length, and nothing further changes |
| `Ext2.Reader.Turn` | loader/ext2fs.c:447-492 | a turn of the loop extends the bytes in the buffer to the next stage; the last one zeroes the reach if its block is a hole |
| `Ext2.Reader.ReadFile` | loader/ext2fs.c:427-495 | on success the buffer holds exactly the bytes of the range, each the one on the volume where the file has it, and then zeros up to the reach, otherwise the error is the reference's or memory was full; nothing past the reach changes; the caches stay coherent unless the device stops inside a block of pointers of the range |
| `Ext2.Reader.LoadInode` | loader/ext2fs.c:191-260 | the inode read through group descriptor and table |
| `Ext2.Reader.CheckRecord` | loader/ext2fs.c:531-601 | one record yields its node exactly if it has the name, with the errors of reading it |
| `Ext2.Reader.IterateDir` | loader/ext2fs.c:498-641 | the loop finds what the reference scan finds |
| `Ext2.Reader.ReadSymlink` | loader/ext2fs.c:644-686 | the target from the inode or from the file's blocks |
| `Ext2.Reader.CutName` | loader/ext2fs.c:716-724 | cutting the private copy of the path in place yields the next component and where the following one starts |
| `Ext2.Reader.FollowSymlink` | loader/ext2fs.c:741-779 | following a link equals the reference, counter included |
| `Ext2.Reader.EnterName` | loader/ext2fs.c:732-779 | one component: the entry, or what it is a link to, as in the reference |
| `Ext2.Reader.FindNames` | loader/ext2fs.c:714-791 | the in-place loop over the copied path equals the reference on its components |
| `Ext2.Reader.FindFile1` | loader/ext2fs.c:689-794 | the lookup equals the reference on the path's components, counter included, unless memory was full; after any other failure than stopping inside a block of pointers the caches are coherent |
| `Ext2.Reader.FindFile` | loader/ext2fs.c:797-825 | the lookup with a fresh link count and the type check |
| `Ext2.Reader.Mount` | loader/ext2fs.c:936-989 | file system and root as on the volume; the caches stay, and are right afterwards if and only if the volume holds their blocks |
| `Ext2.Reader.Close` | loader/ext2fs.c:888-914 | nothing is mounted, open or cached |
| `Ext2.Reader.Open` | loader/ext2fs.c:850-885 | the inode of a regular file becomes the open file; after a failure none is open, or the old one if nothing is mounted |
| `Ext2.Reader.LoadFile` | loader/ext2fs.c:850-933 | from coherent caches the buffer receives the contents of the file the path names, or the reference's error comes back, or memory was full, and the caches are coherent for the next load |
| `Ext2.Reader.LoadFrom` | loader/file.c:83-101 | the same after mounting over whatever is cached, if that is what the partition holds |
| `Ext2.Reader.RoomIs` | loader/ext2fs.c:427-495 | with well-formed directories, what a load asks of its caller comes down to the size of the buffer |
| `Moves.Memcpy` | loader/string.S:139-178 | going upwards in byte, eight-byte, word and byte phases, the destination gets the old source bytes unless it starts inside the source, and nothing else ever changes |
| `Moves.BackwardsMemcpy` | loader/string.S:180-214 | the same going downwards, for a destination above |
| `Moves.Memmove` | loader/string.S:134-137 | for every overlap, alignment and length: a simultaneous copy |
| `Moves.Memset` | loader/string.S:103-126 | exactly the given bytes are set, across the overlapping aligned words |
| `ConfigTokens.ItemsRoundTrip` | loader/cfg.c:145-264 | writing any list of flags and item=value pairs in quotes and reading it gives the list if and only if all tokens are NUL-free, shorter than 200 and not "=" |
| `ConfigTokens.QuotedReads` | loader/cfg.c:171-205 | a quoted token decodes to itself if it is short enough and is refused otherwise |
| `ConfigTokens.ReadIsWritable` | loader/cfg.c:238-264 | no text yields an item or value that is "=", holds a NUL or has 200 characters |
| `ConfigTokens.BareToken` | loader/cfg.c:206-230 | a token written with backslashes is read back up to its delimiter |
| `ConfigTokens.BareUpTo` | loader/cfg.c:206-230 | a token of other characters ends before a blank, tab, newline, hash or equals sign, with at most 199 characters |
| `ConfigTokens.SpacesSkipped` | loader/cfg.c:157-159 | blanks, tabs and newlines before a token change nothing |
| `ConfigTokens.LineJoined` | loader/cfg.c:186-192 | a backslash at the end of a line in quotes leaves one blank |
| `ConfigTokens.CommentSkipped` | loader/cfg.c:156-168 | a comment line changes nothing |
| `ConfigTables.AfterRight` | loader/cfg.c:272-315 | after known settings every table holds, for each name, the last well-typed setting of its section |
| `ConfigTables.AcceptedIsKnown` | loader/cfg.c:291-314 | a list is accepted if and only if each item is known in the table of its place |
| `ConfigTables.RejectedIsPrefix` | loader/cfg.c:313-331 | an unknown item leaves the tables of what precedes it |
| `ConfigTables.ConfigMeaning` | loader/cfg.c:346-371 | a question is answered from the first section whose label, base name or alias matches, locally first and then globally |
| `ConfigTables.AskIsFirst` | loader/cfg.c:354-370 | the first image that answers decides: its own value, else the global one; none means no value |
| `ConfigTables.AskFails` | loader/cfg.c:354-363 | a question fails exactly when an image without a name comes before every image that answers |
| `ConfigTables.NamelessFails` | loader/cfg.c:354-363 | from the text: it follows a null pointer exactly when the first section that is nameless or answers is nameless |
| `ConfigTables.DefaultMeans` | loader/cfg.c:407-425 | the default item, or the name of the first section; a null pointer is followed exactly when neither is there |
| `ConfigTables.ImageAlone` | loader/cfg.c:276-370 | the text image is accepted, and then every question about an image fails |
| `ConfigTables.ParseIsAfter` | loader/cfg.c:317-334 | any text sets the settings read from it one after the other, up to the first unknown item or syntax error, and is accepted if there is neither |
| `ConfigTables.WrittenMeans` | loader/cfg.c:145-371 | from written settings through tokens and tables, every answer is what the settings mean |
| `ConfigAnswers.AlikeIsSame` | loader/util.c:126-140 | items are compared letter by letter, without regard to case |
| `ConfigAnswers.GlobalAnswer` | loader/cfg.c:291-353 | without an image, a string item answers with the last value given before the first image, a flag is set if named there, all else is unset |
| `ConfigAnswers.SectionAnswer` | loader/cfg.c:276-368 | with an image, the first section whose label, or else last part of its path, or alias is that name decides, with the last value or flag in it, else the global answer |
| `ConfigAnswers.NoSectionAnswers` | loader/cfg.c:354-370 | if no section answers, nothing does |
| `ConfigAnswers.WrittenAnswers` | loader/cfg.c:145-371 | the global answers from the written text on |
| `ConfigAnswers.WrittenImageAnswers` | loader/cfg.c:145-371 | the same for images |
| `Config.Parser.Next` | loader/cfg.c:119-138 | one character is taken from the push-back or the text |
| `Config.Parser.Again` | loader/cfg.c:140-143 | a character given back is read next; a NUL is lost |
| `Config.Parser.FirstChar` | loader/cfg.c:156-168 | white space and comments are skipped |
| `Config.Parser.ReadQuoted` | loader/cfg.c:171-205 | the quoted branch decodes as specified into its buffer of 201 characters |
| `Config.Parser.ReadBare` | loader/cfg.c:206-230 | so does the unquoted branch, giving the delimiter back |
| `Config.Parser.GetNext` | loader/cfg.c:145-231 | token, and text left, as specified |
| `Config.Parser.NextSetting` | loader/cfg.c:238-264 | setting, and text left, as specified; a returned item comes first |
| `Config.Parser.Set` | loader/cfg.c:272-315 | tables and verdict as specified; an unknown item is kept for the next call |
| `Config.Parser.ParseAll` | loader/cfg.c:317-334 | an item given back before and then the whole text set the tables as specified |
| `Config.Parser.GetString` | loader/cfg.c:346-371 | the answer of the tables |
| `Config.Parser.GetDefault` | loader/cfg.c:407-425 | the default item, or the name of the first image |
| `Numbers.ReadDigits` | loader/util.c:240-270 | the loop stops at the end of the digits, knows whether the value exceeds 2^31-1, and has the value if not |
| `Numbers.ParseNumber` | loader/util.c:185-302 | value and end as in the reference, blanks, sign, base and prefix included |
| `Numbers.CutoffRight` | loader/util.c:245-268 | the overflow test is exact |
| `Numbers.StrtolReads` | loader/util.c:177-286 | in every base asked for, blanks, sign, prefix and digits are read as the signed value clamped to 32 bits, ending behind the digits |
| `Numbers.EveryText` | loader/util.c:204-270 | every C string is made of such blanks, sign, prefix, digits and rest, for every base |
| `Numbers.StrtolIsNumber` | loader/util.c:177-302 | and strtol gives the number that these parts denote, and where it ends, with digits and without |
| `Numbers.Saturates` | loader/util.c:281-285 | the value is the signed one where it fits, else 2^31-1 or -2^31 |
| `Numbers.DigitValues` | loader/util.c:253-262 | digits are figures, then letters in either case |
| `Numbers.OtherBase` | loader/util.c:199-200 | bases outside 2 to 36, but for 0, are taken for 10 |
| `Numbers.NoDigitsRead` | loader/util.c:287-301 | without digits nothing is consumed, or all up to the 0 of a lone 0x |
| `Numbers.PrintUnsigned` | loader/printf.c:69-82 | the digits of the masked recurrence, most significant first |
| `Numbers.PrintSigned` | loader/printf.c:88-106 | sign and digits of a value above -2^31 |
| `Numbers.DigitsExact` | loader/printf.c:75-77 | the printed digits denote the number if and only if it has at most 28 bits without its last digit |
| `Numbers.ExactRange` | loader/printf.c:75-77 | that is all of them in hex, up to 0x9FFFFFFF in decimal and 0x7FFFFFFF in octal |
| `Numbers.LeadingDigit` | loader/printf.c:75-77 | no leading zeros |
| `Numbers.SignedRoundTrip` | loader/printf.c:88-106 | strtol reads back what printkns prints, in base 10 and with an open base |
| `PathSpec.RoundTrip` | loader/file.c:118-199 | file_path gives back the path that printkp prints if and only if its device is non-empty, without colon and leading blank, its part at most 2^31-1 and its path absolute |
| `PathSpec.TakenApart` | loader/file.c:138-170 | a printed path is split at the colon behind the device |
| `PathSpec.ShortForm` | loader/file.c:138-150 | without a colon the text behind its leading blanks is a path on the default device, empty for the root, refused if relative |
| `PathSpec.ReadPathShape` | loader/file.c:158-191 | what comes out of a specification with a colon has a proper device and an absolute path |
| `PathSpec.Print` | loader/printf.c:112-122 | device, colon, part and path |
| `PathSpec.ParsePath` | loader/file.c:118-199 | the copy taken apart in place reads as in the reference |
| `PathSpec.ChompAt` | loader/util.c:25-33 | leading blanks are stepped over |
| `Allocator.MallocSafe` | loader/malloc.c:44-58 | a block handed out keeps all live blocks disjoint, aligned and inside the arena if and only if its end does not wrap |
| `Allocator.MallocGives` | loader/malloc.c:44-58 | a block is handed out exactly when its end stays below that of the arena, behind a header with its size, the pointer moving to the next multiple of four |
| `Allocator.FreeSafe` | loader/malloc.c:76-80 | freeing a live block keeps the others safe |
| `Allocator.FreeUndoesMalloc` | loader/malloc.c:76-80 | free after malloc restores the pointer, freeing again changes nothing, and the next malloc gives the same block |
| `Allocator.FreeNull` | loader/malloc.c:76-80 | freeing a null pointer is harmless if and only if something was allocated before |
| `Allocator.ResizeSafe` | loader/malloc.c:64-67 | resizing the last block is safe if and only if the size is a multiple of four that fits |
| `Allocator.RunSafe` | loader/malloc.c:31-80 | after every run of requests, correct frees, writes inside blocks and changes of size the live blocks are aligned, in the arena, disjoint with their headers, and carry their sizes |
| `Allocator.RunKeepsContents` | loader/malloc.c:31-80 | over every run the contents of a block stay until the run touches that block |
| `Allocator.StepSafe` | loader/malloc.c:31-80 | each operation keeps all that, and the contents of every block it does not touch |
| `Allocator.MallocKeepsContents` | loader/malloc.c:52-56 | malloc leaves the contents of live blocks alone |
| `Allocator.ResizeKeepsContents` | loader/malloc.c:64-67 | so does resizing the last block, also for the part of it that stays |
| `Allocator.MoveSafe` | loader/malloc.c:70-73 | a relocated block holds the old contents as far as they fit, and no other block changes, even if the copy goes past a smaller new block |
| `Allocator.MoveLeaves` | loader/malloc.c:70-73 | the copy leaves the arena exactly when the old block is larger than what is left behind the new header, and then exactly its end overwrites what follows |
| `Allocator.Heap.constructor` | loader/malloc.c:31-41 | an empty arena is safe |
| `Allocator.Heap.Malloc` | loader/malloc.c:44-58 | memory, pointers and result as specified |
| `Allocator.Heap.Free` | loader/malloc.c:76-80 | pointer as specified |
| `Allocator.Heap.Realloc` | loader/malloc.c:60-74 | memory, pointers and result as specified, for the last block, any other one and a null pointer |
| `Elf.Parse` | loader/elf.c:38-104 | span, base and entry as in the reference, with its three errors; headers are looked at only behind an accepted identification |
| `Elf.ParsedFields` | loader/elf.c:52-101 | entry, offset and number of headers from bytes 24, 28 and 44, and the fields of each 32-byte header by position |
| `Elf.OneSegment` | loader/elf.c:76-81 | a header counts exactly if it is of type 1 at an offset other than 0 |
| `Elf.SpanCovers` | loader/elf.c:65-85 | on a flat image the span starts at the first loadable segment, covers every one, and ends with the last |
| `Elf.Relocate` | loader/elf.c:114-146 | an old kernel is moved as a whole, or refused above 0x3e0000 bytes; a newer one is rebased and memory stays |
| `Elf.SegmentsPlaced` | loader/elf.c:116-131 | after the move every segment's file bytes are at its masked address, however source and destination overlap |
| `Elf.EntryFollows` | loader/elf.c:132-142 | after rebasing, an entry inside a segment denotes the same byte of it |

## Left out

- Open Firmware calls, claims, console, prompts, timers and command glue (`prom.c`, `disk.c` apart from the read, `main.c`, `env.c`, `commands.c`): foreign calls and user interaction.
- `read_dos_partition`, `part_open` and the flags of `open_ext2`: decoding at fixed offsets, and a test of flags that are never set; that the caches are not dropped between partitions is covered by `Mount`, `LoadFrom` and `OtherPartition`.
- Byte swapping and structure layout in assembly: fields are decoded from bytes directly.
- The listing mode of `ext2fs_iterate_dir` and `ext2fs_ls`: output only.
- Lifetime of `ext2fs_node` objects: nodes are values. The inode that `ext2fs_iterate_dir` stores in a node without setting `inode_read` is not observable later.
- Failure of `malloc` for nodes, names and link texts.
- `ext2fs_read_file` and directory scans near 4 GiB: positions whose 32-bit sum would wrap are `Undefined`.
- Ext2.Reader.ReadFile: says nothing about the bytes left in the buffer by a failed read, because callers discard them.
- Ext2.Reader.Mount: block sizes above 64 KiB are `Undefined` rather than shifted, because the block arithmetic of the code overflows for them.
- Allocator.Heap.Realloc: a null pointer before the first `malloc` is excluded, because the code then stores a header below address 0.
- Numbers.PrintSigned: the smallest value is excluded, because negating it overflows in the code.
- `mark`, `release`, `word_split`, `strstr` and table printing: small and unused by the rest of the model.
- Warnings and line numbers of the configuration parser: output only.
- `elf_boot`, cache flushing, start-up code and memory test: hardware and firmware.
- Addresses at the top of memory for the block moves: no copy wraps around the address space.
