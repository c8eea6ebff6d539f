# EROFS image builder, reader and mutation laboratory: a verified model

This project models, in Dafny, the parts of an EROFS workspace where one piece of code must undo,
refine or agree with another one, and proves that it does.

* **Builder and reader** (`trees`, `layout`, `emitter`, `storage`, `regions`, `builder`, `dirpack`,
  `dirdecode`, `dirents`, `reader`, `lookup`, `listing`, `walkdir`, `file`, `contents`, and the round trips
  `roundtrip`, `walktrip`, `hostwalk`, `filetrip`, `reproducible`, with `corners` for hosts at which
  promises end). A host tree is scanned, numbered, laid out, packed and emitted in place into one byte
  array. The reader goes back from bytes to inodes, path lookups, directory walks and file contents. The
  round trips hold for every legal host tree: lookup returns the inode planned for the host file at a
  path and nothing where there is none, the explicit-stack walker lists the host's files in path order,
  each once, and reads of any sizes stream the host's bytes. The image does not depend on the order in
  which the host lists its directories.
* **Field locator** (`format`, `locator`, `located`, `agreement`, `places`). Checked address arithmetic
  over arbitrary images: soundness of every located field, order of the records of every table, and
  agreement with the reader's own address arithmetic.
* **Mutation planner** (`bits`, `hex`, `crc`, `remainder`, `patches`, `collapse`, `replay`, `integrity`,
  `planner`, `planmeaning`, `planlaws`, `planorder`, `mutation`). Intents are resolved against an immutable baseline
  into a conflict-checked write map, the checksum is repaired, the map is collapsed into patches and
  replayed. An accepted plan means what its intents say, and what it sets is what the reader then reads.
* **Campaign engine** (`generator`, `recipe`, `cases`, `minimizer`, `campaign`). Lazy case windows equal eager
  ones, minimization is sound and 1-minimal for monotone predicates, and the accounting of a run adds up,
  for every clock, operator, planner and oracle.
* **Shared** (`arithmetic`, `bytes`, `results`, `types`, `names`, `sorting`, `utf8`). Arithmetic,
  little-endian bytes, on-disk records, byte-wise name order, stable sorting and lossy UTF-8 decoding.

Code that updates state in place is modelled by methods and classes over arrays and fields (`Cursor`,
`DirentBlock`, `ReadDir`, `WalkDir`, `File`, `DeterministicCases`, `CombinationStream`, `Minimizer`),
each proved against a specification function; the properties are lemmas about those functions. Machine
words are bounded integers with explicit wrap-around or checked operations, except the checksum, which is
computed on 32-bit vectors.

Where a promise turned out not to hold as stated, the exact condition is proved instead:

* The walker shows a stored name exactly when it is valid UTF-8 (`WalkTrip.NamesExact`;
  `Corners.OddNameBuilt` gives a host).
* The default walk lists the whole tree exactly when no directory lies at depth 256 or more
  (`WalkTrip.DefaultDepthExact`, and `HostWalk.BuildThenWalkAll` in terms of the host;
  `Corners.ChainBuilt` gives hosts).
* Padded sizes of inline xattr entries can overlap the next entry when the region starts at an unaligned
  address, which tolerant mode allows with one- and two-byte blocks (`LocatorSoundness.PaddingFits`
  states when, `LocatorSoundness.PaddingOverlaps` gives an image); the records themselves never overlap.
* The metabox mapping differs from the directory mapping only in the last block of inline data whose size
  is a whole number of blocks, and does unless that block lies right behind the inode
  (`AddressAgreement.MetaboxAgrees`; `AddressAgreement.MetaboxDiffers` gives images).
* Whether a plan is accepted depends on the order of its intents, because a byte equal to the parent's
  reserves nothing: an intent must leave alone what an earlier one changes (`PlanOrder.AcceptedExactly`,
  `PlanOrder.OrderMatters`; `PlanOrder.OneOrderOnly` gives plans). What an accepted order plans does not
  depend on it (`PlanOrder.OrderFree`).
* Two windows of a campaign join unless a draw of the first one is empty and one of the second is not
  (`Recipe.WindowsJoin`; `Recipe.WindowsPart` gives a campaign).
* Shrinking can replace an accepted smaller value by a larger one that is accepted later; a value ends as
  the smallest one kept exactly when no other is kept (`Minimizer.Minimizer.SmallestExactly`;
  `Minimizer.LargerReplacesSmaller` gives a run).
* A root that is a symbolic link to a directory passes the builder's guard, which follows it
  (erofs/src/builder.rs:120), and is then scanned as a link (erofs/src/builder.rs:166): it is built, and
  the image's root inode is a symlink (`Corners.LinkRootBuilt`).
* Images are reproducible under a fixed time; without one, two builds at different times always differ
  (`Reproducible.BuildReproducible`).
* The volume name is documented as padded with spaces (erofs/src/builder.rs:76) and is padded with zeros,
  or with the rest of an earlier name (`Builder.VolumeNamePadding`, `Builder.VolumeRenamed`).

`dafny verify dfyconfig.toml` checks the whole project.

## Model

| member | source | states |
|---|---|---|
| Dirents.FindNodeIdByName | erofs/src/dirent.rs:12-48 | the binary search terminates on every block, well formed or not, and a nid it returns belongs to an entry of that name |
| Dirents.LookupMeetsScan | erofs/src/dirent.rs:12-48 | on a block that decodes to strictly increasing names, the search returns exactly what a linear scan returns |
| Dirents.ReadNthDirent | erofs/src/dirent.rs:80-87 | reading a header succeeds exactly when its twelve bytes are inside the block |
| DirPacking.WriteDirBlock | erofs/src/builder.rs:398-414 | one block is appended: headers with the running name offsets, then the names, then zeros to 4096 bytes |
| DirPacking.EncodeDirents | erofs/src/builder.rs:375-395 | the packing loop yields the greedy blocks' bytes, and a logical size that counts the last block only as far as it is filled |
| DirPacking.PackFlattens | erofs/src/builder.rs:375-395 | packing loses, adds and moves no entry |
| DirPacking.PackSound | erofs/src/builder.rs:375-395 | every block is non-empty and fits, and is cut only when the next entry would not fit |
| DirDecoding.BlockRoundTrip | erofs/src/dirent.rs:50-78 | a packed block, whole or cut anywhere behind its used bytes, decodes to exactly its nids, names and file types in order |
| Trees.BlocksSound | erofs/src/builder.rs:319-356 | the entries of a directory, dots included, pack into sound greedy blocks that flatten back to them |
| Sorting.SortStrict | erofs/src/builder.rs:337-339 | sorting entries with distinct names leaves them strictly increasing in byte order |
| Layout.AssignNids | erofs/src/builder.rs:306-316 | numbering is pre-order: each node takes two slots and the next inode number, the cursors end behind the subtree, inode numbers wrap at 32 bits |
| Layout.NumberNumbers | erofs/src/builder.rs:306-316 | numbering changes nothing but the numbers, which are those of a pre-order traversal |
| Layout.LayOut | erofs/src/builder.rs:319-364 | the recursive layout method computes the placed tree or the first error, in pre-order |
| Layout.PlaceLays | erofs/src/builder.rs:319-364 | a placed tree owns consecutive whole blocks from the cursor on, each payload rounded up, and is otherwise the scanned tree |
| Regions.PlanRegions | erofs/src/builder.rs:126-157 | superblock, inode slots and payloads of a plan are pairwise disjoint and inside the image, and the block total is metadata blocks plus rounded-up payloads |
| Emitter.Cursor.Put | erofs/src/builder.rs:472-503 | the cursor appends to what it has written so far, in place |
| Emitter.WriteInode | erofs/src/builder.rs:452-469 | the slot gets the 48 bytes of the extended inode and nothing else changes |
| Emitter.Emit | erofs/src/builder.rs:417-449 | in-place emission of a subtree gives the image of the recursive specification, or its error |
| Storage.EmitFrame | erofs/src/builder.rs:417-449 | emitting a subtree changes nothing outside its own slots and blocks |
| Storage.EmitStores | erofs/src/builder.rs:417-449 | after emission every inode and payload of the subtree is intact at its address |
| Builder.WriteSuperblock | erofs/src/builder.rs:225-264 | the first 112 bytes of the superblock are written field by field at their offsets, dated by the fixed time or else by the clock, and nothing else changes, the 16 reserved bytes included |
| Builder.RootRefused | erofs/src/builder.rs:118-124 | planning refuses a root exactly if it is neither a directory nor a link that leads to one |
| Builder.PlanFrames | erofs/src/builder.rs:124-148 | an accepted plan is the scanned tree, numbered from the first free slot and laid out behind the metadata blocks |
| Builder.VolumeNamePadding | erofs/src/builder.rs:76-92 | a new builder's volume name field is the name padded with zeros, and the space-padded one exactly for names of sixteen bytes |
| Builder.VolumeRenamed | erofs/src/builder.rs:81-92 | a second, shorter name keeps the end of the first one behind it |
| Builder.BuildFromDir | erofs/src/builder.rs:118-157 | the build fails with exactly the planning error or when a host file does not read as long as it was, and otherwise returns an image of the planned size holding superblock, inodes and payloads on a ground of zeros, dated by the fixed time or else by the clock |
| Reproducible.BuildReproducible | erofs/src/builder.rs:97-104 | the same files, in whatever order directories are listed and, under a fixed time, whenever they were written, give at two times the same result exactly when there is a fixed time, the two times are one, or the build is refused, and then for the same reason |
| RoundTrip.OpenBuilt | erofs/src/filesystem.rs:46-90 | the reader opens every built image and reads back inode count, block count, uuid, volume name and build time |
| Lookup.InodeReads | erofs/src/filesystem.rs:93-104 | a stored inode reads back field by field |
| Lookup.DirBlockReads | erofs/src/filesystem.rs:111-213 | reading block b of a stored directory gives that packed block, cut to its shown bytes |
| Lookup.LookupBlocksFinds | erofs/src/sync/filesystem.rs:210-242 | searching block after block finds what a scan of all entries of the directory finds |
| Lookup.GetPathInode | erofs/src/sync/filesystem.rs:210-242 | the nested loops over components and blocks compute the recursive path resolution |
| Lookup.ResolveMeetsTree | erofs/src/sync/filesystem.rs:210-242 | resolving ordinary names in a sound image is looking them up in the tree |
| RoundTrip.LookupScanned | erofs/src/builder.rs:159-223 | scanning commutes with lookup: the scanned tree has at a path what the host has there |
| RoundTrip.BuildThenLookup | erofs/src/sync/filesystem.rs:210-242 | in every image built from a legal host tree, a path resolves to the inode planned for the host file there, nid, inode number and directory size included, with the host's kind, size, mode, uid, gid, times and links: one for a file or symlink, and for a directory two and one for each entry that is a directory itself, modulo 2^32; it resolves to nothing exactly when there is no such file |
| RoundTrip.ScannedDirs | erofs/src/builder.rs:186-202 | the children counted for the link count are the positions of the host directory that hold directories, sorting included |
| Utf8.WellFormedExactly | erofs/src/dirent.rs:151-153 | the decoder finds nothing to replace exactly in concatenated encodings of Unicode scalar values, as section 3 of RFC 3629 defines them |
| Utf8.LossyIdentity | erofs/src/dirent.rs:151-153 | lossy decoding shows the stored bytes exactly when they are valid UTF-8 |
| WalkDirs.DirentBlock.TryNextEntry | erofs/src/dirent.rs:131-180 | advances to the next entry that is not a dot; an error commits nothing past the dots skipped |
| WalkDirs.DirentBlock.NextEntry | erofs/src/dirent.rs:117-129 | yields the block's listing entry by entry and nothing after an error |
| WalkDirs.ReadDir.New | erofs/src/sync/dirent.rs:18-32 | opening a directory reads its first block at once and fails exactly when the listing cannot start |
| WalkDirs.ReadDir.NextEntry | erofs/src/sync/dirent.rs:34-53 | yields the directory's listing across all its blocks, in order |
| WalkDirs.WalkDir.New | erofs/src/sync/walkdir.rs:40-63 | opens a walk at a path with exactly the resolver's and the directory's errors |
| WalkDirs.WalkDir.Push | erofs/src/sync/walkdir.rs:84-90 | descending keeps the invariant: depths 1 to k in order, at most the cap, distinct nids on the stack equal to the ancestor set |
| WalkDirs.WalkDir.Pop | erofs/src/sync/walkdir.rs:128-133 | closing a directory keeps the invariant and drops only the innermost level |
| WalkDirs.WalkDir.GetWalkDirEntry | erofs/src/sync/walkdir.rs:76-104 | reacts to an entry with an item, a descent, or the cycle, depth or reading error, as the recursive traversal prescribes |
| WalkDirs.WalkDir.NextEntry | erofs/src/sync/walkdir.rs:106-135 | on every image each call yields exactly the next item of the recursive traversal, then nothing for ever; after an error the walker is exhausted |
| WalkDirs.WalkAll | erofs/src/sync/walkdir.rs:40-135 | opened, limited and driven until it yields nothing, the walker has yielded the whole recursive traversal, on every image |
| Listings.StepAdvances | erofs/src/sync/walkdir.rs:106-135 | one step of the stack machine is one step of the recursive traversal of all open directories |
| Listings.WalkMeets | erofs/src/sync/walkdir.rs:76-104 | at the next entry of its innermost directory a walk ends with the cycle error exactly as the entry is a directory within the cap that is open already, descends into another one, ends with the depth error at the default cap, and yields everything else |
| Listings.WalkShape | erofs/src/sync/walkdir.rs:76-104 | on every image, cycles and shared directories included, the walk of a listing ends, stays within the depth cap, and has at most one error, as its last item |
| Listings.StackShape | erofs/src/sync/walkdir.rs:106-135 | so does everything a stack of open directories still yields |
| WalkTrip.OpenBuiltDir | erofs/src/sync/dirent.rs:18-53 | opening a built directory lists its children in byte order with the dots dropped |
| WalkTrip.WalkMeetsTree | erofs/src/sync/walkdir.rs:76-135 | the traversal of the image is the traversal of the tree; no cycle error can occur |
| WalkTrip.BuildThenWalk | erofs/src/sync/walkdir.rs:40-135 | walking any directory of a built image yields the traversal of the planned tree below it |
| HostWalk.WalkLists | erofs/src/sync/walkdir.rs:64-135 | for names in UTF-8 that traversal lists the host's files below the directory: an item of the file's kind and attributes for each path, none else, in path order, down to the limit |
| HostWalk.ListedOnce | erofs/src/sync/walkdir.rs:106-135 | no path is listed twice |
| HostWalk.BuildThenWalkAll | erofs/src/sync/walkdir.rs:40-135 | build, open, walk to the end: the items are the host's files below the directory, each once, with their kinds; without a limit the walk ends in the depth error exactly when a directory lies 256 levels down or deeper |
| HostWalk.DepthPlanned | erofs/src/sync/walkdir.rs:79-96 | the planned tree has a directory at a depth exactly when the host has |
| HostWalk.NamesPlanned | erofs/src/dirent.rs:151-153 | the planned names are valid UTF-8 exactly when the host's are |
| WalkTrip.DefaultDepthExact | erofs/src/sync/walkdir.rs:79-96 | without a limit the walk is the full pre-order listing when no directory lies at depth 256 or more, and otherwise ends in the depth error |
| WalkTrip.ExplicitDepthExact | erofs/src/sync/walkdir.rs:64-74 | an explicit limit n lists exactly the first n levels of the pre-order listing |
| WalkTrip.ExplicitDepthSucceeds | erofs/src/sync/walkdir.rs:91-97 | an explicit limit never makes the walk of a built tree fail |
| WalkTrip.NamesExact | erofs/src/dirent.rs:151-153 | the walk shows every entry under its stored name exactly when all names are valid UTF-8 |
| Corners.LinkRootBuilt | erofs/src/builder.rs:118-124 | a root that is a link to a directory is built, and the image's root is a symlink |
| Corners.OddNameBuilt | erofs/src/dirent.rs:151-153 | a directory with a file named by the single byte 0xff is built, and the walk shows the file under another name |
| Corners.ChainBuilt | erofs/src/sync/walkdir.rs:79-96 | a chain of directories is built, and its walk ends in the depth error exactly when the chain has 256 directories or more |
| Files.SameBlock | erofs/src/filesystem.rs:111-252 | for every layout only the block index of an offset decides what is read |
| Files.BlockLength | erofs/src/filesystem.rs:111-252 | a readable block has exactly the bytes from its start to the next block or the end of the data |
| Files.ContentAt | erofs/src/sync/filesystem.rs:167-208 | the block around an offset is the content there, for flat, inline and index-free chunked data; where the bytes lie is the subject of the `Contents` rows |
| Contents.OpenExactly | erofs/src/filesystem.rs:43-89 | an image opens exactly if it holds a superblock with the magic, no feature bits but 0 and 2, and blocks of 2^9 to 2^24 bytes; the words the reader goes by are those at their places |
| Contents.InodeWrittenBack | erofs/src/filesystem.rs:91-103 | whatever inode is read, compact or extended: written back field after field in record order it is the bytes of its slot, 32 times its nid behind the metadata blocks; it is read exactly when those bytes are there |
| Contents.PlainContent | erofs/src/filesystem.rs:111-135 | flat data lies in one piece from its first block on, and can be read exactly when that piece is inside the image |
| Contents.InlineContent | erofs/src/filesystem.rs:136-170 | inline data lies in two pieces, the whole blocks from the first block on and the rest right behind the inode and its xattrs, and can be read exactly when both are inside the image |
| Contents.ChunkBlock | erofs/src/filesystem.rs:174-252 | the block around byte k of chunked data can be read exactly when the data has no chunk index, the table entry is inside the image and no hole, the block number fits 32 bits and the block is inside the image |
| Contents.ChunkContent | erofs/src/filesystem.rs:174-252 | byte k of readable chunked data is the image's byte at the entry's block number times the block size plus k modulo the chunk size, the entry being number k divided by the chunk size behind the inode |
| Files.File.Read | erofs/src/sync/file.rs:57-96 | one read returns the bytes from the offset up to the buffer, block or file end, keeps the block containing the offset cached, and returns no bytes exactly for an empty buffer or at the file size; an unreadable block changes nothing |
| Files.ReadIsPiece | erofs/src/sync/file.rs:57-96 | what one read returns is the matching piece of the file's content |
| Files.File.ReadRun | erofs/src/sync/file.rs:57-96 | reads of any sizes, one after the other, return together exactly the content between the offsets before and after; a readable file never fails, and enough non-empty buffers read it to its end |
| FileTrip.OpenFile | erofs/src/sync/filesystem.rs:113-133 | a path opens exactly when it resolves to a regular file |
| FileTrip.BuiltContent | erofs/src/filesystem.rs:111-213 | a stored file or symlink is readable and its content is its payload |
| FileTrip.BuildThenRead | erofs/src/sync/file.rs:57-96 | in every built image the content at a file's or symlink's path is the host's bytes |
| FileTrip.OpenThenRead | erofs/src/sync/file.rs:57-96 | in every built image a host file's path opens, and reads of any sizes return a prefix of the host's bytes, all of them after enough reads into non-empty buffers |
| Format.PrimaryInodeOffset | erofs-format/src/lib.rs:167-187 | a computed inode address is meta block times block size plus 32 times nid, and below 2^64 |
| Format.RoundUp | erofs-format/src/locator.rs:1271-1276 | the aligned value is the smallest multiple not below the value |
| Locators.Locator.LocateInode | erofs-format/src/locator.rs:416-482 | a located inode slot lies inside the image, its structure follows its format bit, and in the primary space its address is the checked one |
| Locators.Locator.LocateObject | erofs-format/src/locator.rs:273-309 | every object's address is a 64-bit word: none of the unchecked additions on the way overflows |
| Locators.WalkInlineXattrs | erofs-format/src/locator.rs:752-812 | the loop over inline xattr entries computes the recursive location, entry sizes and region checks included |
| Locators.WalkPrefixes | erofs-format/src/locator.rs:813-885 | the loop over long-prefix records computes the recursive location, directly or through the metabox |
| LocatorSoundness.PrefixesOrdered | erofs-format/src/locator.rs:826-885 | located prefix records lie behind the table's start in index order and never overlap, in the image or, behind its mapping, in the metabox inode's data |
| Locators.WalkConfigs | erofs-format/src/locator.rs:887-921 | the loop over compression configurations computes the recursive location |
| LocatorSoundness.ConfigsOrdered | erofs-format/src/locator.rs:909-921 | located configuration records lie behind the superblock and its extension slots, aligned, in the order of the algorithms, and never overlap |
| LocatorSoundness.LocateSound | erofs-format/src/locator.rs:273-341 | every located field's span is inside the image, its raw bytes are the image's there, and its value is their little-endian decoding |
| LocatorSoundness.InlineXattrsOrdered | erofs-format/src/locator.rs:752-812 | located xattr entries of one inode lie in its xattr region behind the header, in index order, and their records never overlap |
| LocatorSoundness.PaddingFits | erofs-format/src/locator.rs:772-800 | the padded size of a located entry stays in front of the next located entry exactly when its address or its record length is aligned, or their remainders exceed four |
| LocatorSoundness.PaddedEntriesOrdered | erofs-format/src/locator.rs:752-812 | padded entries never overlap when blocks have at least four bytes, and otherwise only the first one can |
| LocatorSoundness.PaddingOverlaps | erofs-format/src/locator.rs:752-812 | an image with one-byte blocks whose first entry's padded size reaches into its second entry |
| LocatorSoundness.XattrFieldInside | erofs-format/src/locator.rs:310-341 | a located name, value or header field lies inside its entry's record |
| LocatorSoundness.XattrFieldsDisjoint | erofs-format/src/locator.rs:310-341 | fields located in different entries of one inode never overlap |
| LocatorSoundness.SharedXattrsInside | erofs-format/src/locator.rs:726-750 | shared xattr ids lie one behind the other between the header and the first inline entry, inside the region |
| LocatorPlaces.PresenceIs | erofs-format/src/locator.rs:343-380 | a field is present by feature bits 7, 1, 8, 6 and 3 of the image, or by its first extension slot |
| LocatorPlaces.SuperblockPlaced | erofs-format/src/locator.rs:273-341 | a field of the superblock is found exactly when it is present and inside the image, its offset behind byte 1024 |
| LocatorPlaces.SlotsPlaced | erofs-format/src/locator.rs:583-640 | extension slots of 16 bytes lie behind the 128 bytes of the superblock and device slots of 128 bytes from the table's start on, found exactly when the superblock counts them and, for devices, the slot is inside the image |
| LocatorPlaces.XattrHeaderAgrees | erofs-format/src/locator.rs:702-724 | the xattr header is right behind the inode the reader reads, and is found exactly when that inode is and has xattrs |
| LocatorPlaces.DirentListed | erofs-format/src/locator.rs:1041-1189 | a located directory entry is one that the reader counts in the same block, and in strict mode its inode is a directory |
| LocatorPlaces.ChunkViews | erofs-format/src/locator.rs:382-414 | a 4-byte chunk entry has the block address only, an 8-byte one everything else, its high half exactly with bit 6 of the chunk format |
| LocatorPlaces.MetaboxInodePlaced | erofs-format/src/locator.rs:416-482 | a metabox inode is found exactly where the mapping puts 32 times its nid, if all its bytes follow there without a gap |
| LocatorPlaces.ChunkPlaced | erofs-format/src/locator.rs:642-700 | chunk entries of 4 or 8 bytes lie in order, without gaps and aligned to their size, behind the inode and its xattrs, as many of them as there are chunks in the data |
| LocatorPlaces.ChunkFound | erofs-format/src/locator.rs:642-700 | an entry is found exactly if the inode is chunked, its chunk format has no unknown bit where the mode is strict, there is such a chunk, and no address passes 64 bits |
| LocatorPlaces.SharedXattrPlaced | erofs-format/src/locator.rs:726-750 | a shared id lies behind the twelve-byte header and the ids before it, and is found exactly when the header counts it and its region has room for all it counts |
| LocatorPlaces.XattrFieldPlaced | erofs-format/src/locator.rs:311-317 | an xattr name follows the four-byte entry header and the value follows the name, each as long as the header says |
| LocatorPlaces.PrefixFollows | erofs-format/src/locator.rs:813-886 | the next long-prefix record starts at the next multiple of four behind the length word and the bytes it counts, a count of zero standing for 65536 |
| LocatorPlaces.PrefixInfixLength | erofs-format/src/locator.rs:1016-1040 | the infix of a long prefix is its record without the length word and the first byte |
| LocatorPlaces.MapPlaced | erofs-format/src/locator.rs:923-945 | the map header is found exactly behind inodes of the two compressed layouts, at the first multiple of eight |
| LocatorPlaces.IndexesOrdered | erofs-format/src/locator.rs:923-958 | compression indexes of eight bytes lie in order, without gaps, from 16 bytes behind the aligned map header on |
| LocatorPlaces.PacksOrdered | erofs-format/src/locator.rs:960-990 | compact packs lie in order, without gaps and aligned to their size of 8 or 32 bytes, from the first such place behind the map header on |
| LocatorPlaces.ExtentsOrdered | erofs-format/src/locator.rs:992-1014 | compression extents of 4, 8, 16 or 32 bytes lie in order and without gaps behind the map header |
| AddressAgreement.BothOpenTogether | erofs-format/src/locator.rs:219-265 | whatever image the reader opens, the locator opens, in strict mode as well |
| AddressAgreement.InodeAgrees | erofs-format/src/locator.rs:416-482 | an inode the locator finds is at the reader's address, and the reader parses the same format, size, xattr count and data address there |
| AddressAgreement.InodeFoundExactly | erofs-format/src/locator.rs:416-482 | the locator finds an inode exactly when the reader reads it and, in strict mode, its format has no reserved bit |
| AddressAgreement.DirectoryBlockAgrees | erofs/src/filesystem.rs:111-213 | whenever the locator maps a directory block, the reader plans the same address and the same number of bytes |
| AddressAgreement.DirentAddressesAgree | erofs-format/src/locator.rs:1041-1189 | the locator's address of entry i of block b is the reader's planned address plus 12 i, inside the same available bytes |
| AddressAgreement.ChunkAddressesAgree | erofs-format/src/locator.rs:642-700 | the locator's 4-byte chunk entry address and chunk count are the reader's for every offset in the chunk |
| AddressAgreement.TableAligned | erofs-format/src/locator.rs:656-664 | behind an inode the table's alignment changes nothing |
| AddressAgreement.MetaboxAgrees | erofs-format/src/locator.rs:487-572 | the metabox mapping gives the directory mapping's address for a byte exactly when the byte is not in the last block of inline data of whole-block size, or that block lies right behind the inode |
| AddressAgreement.MetaboxDiffers | erofs-format/src/locator.rs:487-572 | an inode for which the mappings differ, in an image the reader opens and reads at the directory mapping's address, and as the metabox itself |
| Bits.ReplaceIsUpdate | erofs-lab/src/lib.rs:501-507 | replacing a byte of a word is replacing that byte of its little-endian bytes |
| Bits.AboveMask | erofs-lab/src/lib.rs:491-498 | a mask of n low bits leaves nothing of a value exactly when the value is below 2^n |
| Hex.ToHex | erofs-lab/src/lib.rs:1065-1073 | the encoding loop yields two digits for each byte, in order |
| Hex.DecodesExactly | erofs-lab/src/lib.rs:1074-1087 | exactly the strings of pairs of hexadecimal digits, of either case, can be decoded |
| Hex.RoundTrip | erofs-lab/src/lib.rs:1065-1087 | decoding what was encoded gives the bytes back |
| Hex.Canonical | erofs-lab/src/lib.rs:1074-1087 | encoding what was decoded gives the string back in lower case: only letter case is lost |
| Crc.Compute | erofs-lab/src/lib.rs:1048-1056 | the byte and bit loops compute the checksum specification, which `Remainders.CrcIsRemainder` and `Remainders.CheckValue` show to be CRC-32C |
| Crc.CrcIsSerial | erofs-lab/src/lib.rs:1048-1056 | the byte-wise checksum is a shift register fed one message bit at a time |
| Remainders.SerialIsRemainder | erofs-lab/src/lib.rs:1048-1056 | the register after any message is the remainder of seed and message, with 32 zeros behind, by the polynomial with exponents 32, 28, 27, 26, 25, 23, 22, 20, 19, 18, 14, 13, 11, 10, 9, 8, 6, 0 over the two-element field |
| Remainders.CrcIsRemainder | erofs-lab/src/lib.rs:1048-1056 | so is the checksum of every byte string |
| Remainders.RemainderUnique | erofs-lab/src/lib.rs:1048-1056 | no polynomial has two remainders, so the checksum is determined by that |
| Remainders.CheckValue | erofs-lab/src/lib.rs:1048-1056 | the nine digits give 0x1cf96d7c, the published check value 0xe3069283 before its final complement |
| Remainders.StoredBits | erofs-lab/src/lib.rs:628-633 | the four stored bytes are the 32 bits of the checksum, lowest first |
| Crc.RunInjective | erofs-lab/src/lib.rs:1048-1056 | any number of bit steps is injective on 32-bit states |
| Crc.BurstDetected | erofs-lab/src/lib.rs:1048-1056 | messages that differ only inside a burst of at most 32 bits share a checksum exactly when they are equal |
| Crc.WindowDetected | erofs-lab/src/lib.rs:1048-1056 | inputs of one length that differ only inside four consecutive bytes have different checksums from the same seed |
| Crc.InvertedStored | erofs-lab/src/lib.rs:624-627 | inverting bit 0 of a checksum flips that bit of its first stored byte and nothing else |
| Patches.AddWrite | erofs-lab/src/lib.rs:925-952 | the loop adds a write byte by byte: unchanged bytes reserve nothing, planned bytes may be replanned only by bit updates of bit updates, and the first clash is reported |
| Patches.AddedMeaning | erofs-lab/src/lib.rs:925-952 | after an accepted write the planned image is the old planned image with the bytes written, and preimages still are the parent's bytes |
| Patches.AddedRefused | erofs-lab/src/lib.rs:925-952 | a write is accepted exactly when it stays inside the image and meets no clashing byte |
| Collapse.CollapseWrites | erofs-lab/src/lib.rs:953-979 | the pass over the ordered map yields the patches of its runs |
| Collapse.CollapseLossless | erofs-lab/src/lib.rs:953-979 | the runs are in address order, disjoint, maximal and uniform, and flatten back to exactly the write map |
| Collapse.RunsUnique | erofs-lab/src/lib.rs:953-979 | they are the only maximal runs that do |
| Replay.ApplyPlanBytes | erofs-lab/src/lib.rs:821-852 | the replay loop applies patch after patch and then the resize, and ends at the first failure |
| Replay.CollapsedReplays | erofs-lab/src/lib.rs:821-852 | the patches of a consistent write map replay on the parent without a preimage error and give the byte overlay |
| Replay.ResizeExactly | erofs-lab/src/lib.rs:841-852 | a plan with a truncation applies to images of the length it was made for and to no others, and cuts no more than it says |
| Replay.ReplaysExactly | erofs-lab/src/lib.rs:827-839 | collapsed patches replay on exactly the images that agree with every preimage |
| Integrity.PlannedBlock | erofs-lab/src/lib.rs:615-622 | the covered bytes are the parent's with the planned writes in them |
| Integrity.ApplyIntegrity | erofs-lab/src/lib.rs:573-653 | the repair reads feature bit and block size from the planned image, refuses uncovered lengths, and adds the checksum as one more write |
| Integrity.RepairMarked | erofs-lab/src/lib.rs:573-653 | what the repair plans anew is the checksum field alone, marked as a repair of that field by the policy; its record says whether it was not applicable, preserved or applied |
| Integrity.RepairVerifies | erofs-lab/src/lib.rs:615-646 | storing the checksum makes the image verify; storing it inverted makes it fail |
| Planner.CurrentValue | erofs-lab/src/lib.rs:499-507 | the bit update starts from the field's value in the planned image |
| Planner.PlanIntent | erofs-lab/src/lib.rs:394-529 | one intent is planned as specified, with its refusals in the code's order |
| Planner.Plan | erofs-lab/src/lib.rs:367-571 | the plan, or the refusal, is that of the specification: modes, intents in order, one truncation, length checks, repair, collapse |
| PlanMeaning.StepsMeaning | erofs-lab/src/lib.rs:394-529 | the accepted writes laid over the parent are the intents performed one after the other |
| PlanMeaning.RepairMeaning | erofs-lab/src/lib.rs:573-653 | the repair in the write map is the repair on the bytes |
| PlanMeaning.AcceptedPlan | erofs-lab/src/lib.rs:367-571 | replaying an accepted plan on the parent gives exactly: every intent performed in order on a mutable copy at baseline locations, none of them refused or out of range, cut to the requested length, checksum repaired |
| PlanLaws.SetReadsBack | erofs-lab/src/lib.rs:418-444 | a set field reads back as the value, and nothing else changes |
| PlanLaws.ReplaceReadsBack | erofs-lab/src/lib.rs:445-473 | a replaced field reads back as the bytes, and nothing else changes |
| PlanLaws.BitsReadBack | erofs-lab/src/lib.rs:474-528 | after a bit update each bit is set if asked, clear if asked, and otherwise as the earlier intents left it |
| PlanLaws.BitsAccepted | erofs-lab/src/lib.rs:474-528 | a bit update is accepted exactly when no bit is asked to be set and cleared, its field is a located scalar, and no bit asked for lies behind the field's end |
| PlanLaws.OutputChecksum | erofs-lab/src/lib.rs:573-653 | a recalculated output verifies over the coverage the patched block size implies; an invalidated one fails and differs from the right word in exactly bit 0 |
| PlanLaws.ChecksumSpelled | erofs-lab/src/lib.rs:573-653 | in numbers: if bit 0 of the word at 1032 is set, the word at 1028 of the output is the checksum of the bytes from 1024 to the end of the first block (or of one block's length from 1024 on, for blocks of at most 1024 bytes), itself taken as zero; invalidated, it is that with bit 0 inverted |
| PlanLaws.ReservedBytes | erofs-lab/src/lib.rs:925-952 | an accepted plan reserves exactly the bytes that ever differ from the parent while the intents are performed |
| PlanOrder.AcceptedExactly | erofs-lab/src/lib.rs:367-571 | a plan of intents other than bit updates is accepted exactly when each has a place in the image, none touches a byte that an earlier one changes, and the mode, the truncation and the repair allow the whole: raw intents in raw mode, one truncation at most, nothing changed behind the end, covered bytes present and the checksum field unchanged |
| PlanOrder.OrderMatters | erofs-lab/src/lib.rs:925-952 | of the two orders of such intents one is accepted and the other refused exactly when in the one the later intent leaves alone what the first changes, in the other it does not, and the one is allowed as a whole |
| PlanOrder.OrderFree | erofs-lab/src/lib.rs:367-571 | two accepted orders of the same such intents give the same plan |
| PlanOrder.OneOrderOnly | erofs-lab/src/lib.rs:933-949 | a plan that writes the parent's own byte first and another value second is accepted, the other order is refused under every policy |
| Mutation.MutateThenRead | erofs-lab/src/lib.rs:418-444 | if a plan setting one scalar of an extended inode is accepted, the reader finds that value in that field of the output and every other field unchanged |
| Mutation.FieldPlanned | erofs-lab/src/lib.rs:381-444 | a plan to set a scalar of an extended inode is accepted exactly when the mode takes fields, the reader reads an extended inode there, the value fits, and, for a consistent plan, the inode's format has no reserved bit |
| Generator.BoundaryValues | erofs-lab/src/campaign.rs:1113-1119 | the boundary values are sorted, distinct, and exactly zero, one, the maximum and the one before it |
| Generator.TargetEnumeration | erofs-lab/src/campaign.rs:1104-1153 | a scalar target has its boundary values and then each single bit once, in order |
| Generator.DeterministicCases.AdvanceTarget | erofs-lab/src/campaign.rs:1104-1128 | moving to the next target skips fields of bytes and loses no case |
| Generator.DeterministicCases.NextDescriptor | erofs-lab/src/campaign.rs:1131-1153 | each call yields the next case of the enumeration, and nothing at its end |
| Generator.SkipDrops | erofs-lab/src/campaign.rs:424-438 | what can still be drawn after skipping is everything that could be drawn without its first non-empty part |
| Recipe.GenerateRecipe | erofs-lab/src/campaign.rs:381-461 | the refusals in order, and otherwise the window of cases, deterministic ones first; what the cases ask for is the subject of the `Cases` rows |
| Recipe.LazySkip | erofs-lab/src/campaign.rs:403-452 | skipping k cases lazily and building m gives the first k + m cases without the first k, empty draws and the shared iteration budget included |
| Recipe.WindowsJoin | erofs-lab/src/campaign.rs:424-452 | two adjacent windows join into the long one exactly when nothing is drawn, the first one ends inside the deterministic cases, none of its draws is empty, or all draws of the second one are |
| Recipe.WindowsPart | erofs-lab/src/campaign.rs:424-452 | a campaign whose first draw is empty and whose second is not: the windows around it do not join |
| Recipe.CasesClassified | erofs-lab/src/campaign.rs:1248-1285 | every case of every window has intents and is named by their hash; the combinations are exactly those behind the deterministic cases and expect nothing; a deterministic case expects rejection exactly if it touches the magic, and acceptance exactly if the checksum is repaired and a time field is set to a value it may have |
| Cases.BoundaryOfWidth | erofs-lab/src/campaign.rs:1113-1119 | the boundary values of a scalar of n bytes are exactly 0, 1, 256^n - 2 and 256^n - 1, in increasing order |
| Cases.ValueCase | erofs-lab/src/campaign.rs:1157-1174 | performed on the parent, the case of a boundary value leaves the field reading that value and every other byte as it was |
| Cases.BitCase | erofs-lab/src/campaign.rs:1175-1190 | performed on the parent, the case of a bit leaves that bit of the field set, and every other bit and byte as it was |
| Cases.CombinationAt | erofs-lab/src/campaign.rs:424-452 | behind the deterministic cases a window has the non-empty draws, in order and by number |
| Minimizer.LowestBitIs | erofs-lab/src/campaign.rs:1434-1457 | shrinking a mask keeps exactly its lowest set bit |
| Minimizer.ShrinksAreSimpler | erofs-lab/src/campaign.rs:1415-1480 | every variant tried for an intent writes to the same place and asks for less |
| Minimizer.Minimizer.Preserves | erofs-lab/src/campaign.rs:1380-1413 | a candidate is accepted exactly when it can be planned and every confirming run agrees, at no more than the confirmations' runs |
| Minimizer.Minimizer.RemoveEach | erofs-lab/src/campaign.rs:1005-1029 | removal returns a confirmed subsequence within confirmations times n runs; for a steady, monotone oracle no single further removal that leaves an intent preserves the signature |
| Minimizer.Minimizer.ShrinkOne | erofs-lab/src/campaign.rs:1031-1050 | with a steady oracle a raw patch ends as its front half, a truncation as half the cut, masks as the lowest bit of the one to clear or else of the one to set, each if that keeps the signature and is less; a value ends as the largest one kept of 0, 1 and its half, which is the smallest kept exactly when only one is |
| Minimizer.Minimizer.ShrinkEach | erofs-lab/src/campaign.rs:1030-1051 | shrinking keeps the number of intents, leaves each equal or simpler, and stays confirmed |
| Minimizer.Minimizer.SmallestExactly | erofs-lab/src/campaign.rs:1030-1051 | for a steady oracle a value ends as the smallest of the values tried that keeps the signature exactly when at most one of the distinct ones among 0, 1 and its half does |
| Minimizer.LargerReplacesSmaller | erofs-lab/src/campaign.rs:1030-1051 | with an oracle that always reports the signature, eight ends as four although zero keeps it |
| Minimizer.Minimizer.Minimize | erofs-lab/src/campaign.rs:983-1051 | both phases together: refusal exactly when the source is not confirmed, at most confirmations times 1 + 4 n runs, a confirmed result |
| Campaigns.RunLadder | erofs-lab/src/campaign.rs:686-800 | every oracle run is recorded in ladder order except a cancelled last one, and the budget holds; by statuses and index, `fsck` follows exactly if budget and time are left and the reader was not cancelled and gave an unknown, crashed, timed-out, exhausted or retained rejected result, or everything escalates; the kernel follows exactly if `fsck` was not cancelled and its result is unknown, abnormal or of another status |
| Campaigns.RunCampaign | erofs-lab/src/campaign.rs:547-848 | each report is a planning error, a byte duplicate or a materialized sample, exactly when it should be, with the oracles' results in ladder order; each ladder went as `RunLadder` says from the identities and runs recorded before it, and those are what the novelty index ends with; runs never exceed the budget; at most one run is unrecorded, a cancelled one that ends the campaign; the campaign goes on exactly while there is no reason to stop, and stops with the first reason |
| Campaigns.IdentityIs | erofs-lab/src/campaign.rs:1327-1340 | two runs have one identity exactly when they report the same, and its profile is the signature up to the first colon |
| Campaigns.MaterializedAreNew | erofs-lab/src/campaign.rs:618-685 | materialized hashes are new to the starting index and pairwise distinct |
| Campaigns.FromReport | erofs-lab/src/campaign.rs:287-316 | the summary loop computes the summary specification |
| Campaigns.VerdictsCounted | erofs-lab/src/campaign.rs:287-316 | each verdict counter is the number of recorded results of its status |
| Campaigns.AbnormalCounted | erofs-lab/src/campaign.rs:318-320 | the abnormal results of a summary are the crashed, timed-out, exhausted and failed ones |
| Campaigns.ReportsCounted | erofs-lab/src/campaign.rs:287-316 | every other counter is the number of reports it is about: materialized, duplicate, failed, expected, mismatched |
| Campaigns.SummaryAgrees | erofs-lab/src/campaign.rs:287-316 | recomputed from the report, the summary has the loop's counter of materialized samples; cases split into three classes and recorded results into seven |

## Left out

- Host file system scanning, memory maps, publishing, locking, `fsync` and corpus directories: input and
  output. The host tree is a value, an image is a byte array or byte sequence.
- The builder's tree of nodes with mutable fields: the tree is a datatype, and numbering and layout
  return the updated tree. Aliasing between nodes does not exist in the original either. Growable byte
  and patch vectors are sequences.
- Error messages: errors are collapsed into the kinds that callers can tell apart.
- `Layout.AssignNids` and the link count of directories follow release arithmetic, where 32-bit numbers
  wrap around; a debug build would panic instead.
- Path normalization: paths are lists of components without dots, as the path library hands them over.
- Compressed layouts, indexed chunks and long xattr prefixes in the reader: it rejects them, and so does
  the model.
- The asynchronous reader: same planning core, different input and output.
- Location provenance: it does not record every byte that is read, so no theorem about it holds.
- The static table of 104 field definitions: the planner and the locator take any table whose fields are
  well formed in the sense of erofs-format/src/schema.rs:1102-1127 and whose scalars have their width.
- PlanOrder.AcceptedExactly: covers intents whose bytes are fixed; what a bit update writes depends on
  the intents before it, so only `Patches.AddedRefused` and `PlanLaws.ReservedBytes` speak of those.
- Decimal and JSON text of manifests and recipes: numbers are numbers; hexadecimal strings are modelled,
  as strings of one-byte characters. Object references in particular are compared as numbers, so a run of
  patches that the original splits between references written "5" and "05" is one run here.
- The clock that dates an image without a fixed time: a parameter of the build.
- SHA-256 identities: plan and parent digests are left out of plans; campaign hashes are arbitrary
  strings.
- The ChaCha generator: a draw is an arbitrary function of an abstract state, so its rejection sampling
  is taken to end.
- Wall-clock time of campaigns, cancellation, panics and oracle processes: arbitrary functions of the
  case and the point at which they are asked. Progress callbacks and the text of planning errors are left
  out.
- `map_metabox_offset` for layouts other than flat ones: it refuses them, and so does the model.
- Standard-library sorting: modelled as a stable insertion sort; the names are distinct, so any sort
  gives the same result.
