# Verified models of the Cray simulator tools

Dafny models of the parts of a Cray supercomputer simulator and its tools that
keep the most state, branch the most or calculate the hardest, and proofs about
them.  `dafny verify dfyconfig.toml` checks everything.

The parts share little code and each has its own modules:

- **UNICOS file system builder** (`Mkfs*.dfy`).  `DiskImage` is the builder's
  object: a sparse block store, two allocation maps, redundant counters, inodes
  with eight extents, and directory blocks made of variable-length records.
  `MkfsDir` has the records on bytes, `MkfsStore` the store and its decoded
  view, `MkfsView` the image invariant and the tree an image stands for,
  `MkfsSteps` what each update does to invariant and tree, `MkfsTree` the link
  counts, `Mkfs` the object with its loops, `MkfsRun` whole runs, `MkfsBytes` the
  maps and directory records byte by byte.
- **COS blocked datasets** (`Ds*.dfy`, `DataSets.dfy`).  The layout of a file as
  a function of the calls that wrote it, the walk along its forward indices, the
  reader with its look-ahead, and the `DataSet` object that writes through a
  block buffer.  `DsFiles` cuts local files into records and says which of them
  come back; `DsNumbers` has the control words and small files as numbers.
  Datasets and blocks are sequences of 64-bit words, the big-endian words of the
  byte file.
- **Disk scan decoding** (`Gf2.dfy`, `DiskCrc.dfy`, `PulseDecode.dfy`).  The CRC
  that is computed from the far end, against divisibility of polynomials over
  two elements; registers are bit strings of their width.  The decoder from
  pulse classes to bits, against an explicit encoder.
- **Arithmetic** (`TruncMult.dfy`, `CrayFloat.dfy`, `IntMult.dfy`).  The 48-step
  truncated multiplier, addition, normalization, and the 32-bit integer
  multiplication, all in 64-bit registers with their wrap-around written out.
- **HTTP request parser** (`Http*.dfy`).  The character-at-a-time parser against
  a grammar with folded header lines, both directions (`HttpGrammar`), when it
  gives which of its three answers (`HttpAnswers`), and every step in character
  codes (`HttpClasses`).
- **I/O processor** (`IopStack.dfy`, `IopInterrupts.dfy`, `IopMos.dfy`).  Exit
  stack, interrupts with delayed enabling, block transfers.
- **Cluster semaphores** (`Semaphores.dfy`).  Test-and-set by several CPUs in
  steps as small as they take them, in any order.

Where the code and its intent differ, the models follow the code:

- Extracting a dataset gives back the files it was created from only under the
  conditions of `DsExtract.ExtractOfCreate`: the look-ahead of `IsEof` and
  `IsEod` reads the next word of the disk file, which may be data or a block
  control word.
- Creating a dataset drops the last bytes of a binary file that are no full
  record and the last line of a text file that is not ended, and strips carriage
  returns: `DsFiles.FilesComeBack` says which files come back.
- First fit in the block map goes on behind the end of the disk once the free
  counter is zero; the model ends there with the outcome `PastEnd`.
- The disk's blocks are divided by 64 rounding down to get the size of the map.
  When fewer than 64 blocks are left behind the last full map block the map
  misses them (`MkfsStore.MapCovers`, `UncoveredDisk`), and it is full with the
  counter still positive: `DiskFull`.
- A half precision product of two fractions close to one does not fit the bits
  that are looked at, and its fraction is lost: `CrayFloat.HalfPrecisionLost`;
  a reciprocal-iteration product below the correction is lost likewise:
  `CrayFloat.TwoMinusLost`.  A sum that carries out of the largest exponent is
  zero.
- A directory block without any slack makes the search for its last record run
  past the block; the model ends there with `Overrun`.  `MkfsRun.FillsUp` fills a
  directory that way.
- An interrupt handler returns to where it was called from only if it does not
  write to the exit stack through its channel: `IopInterrupts.HandlerDiverted`.
- The deadlock message of the semaphores can be given for CPUs that are not
  deadlocked: `Semaphores.FalseAlarm`.
- A channel function of a channel that does not exist does not delay a waiting
  interrupt enable; a test of such a channel does, as does I/O to one that
  exists.

## Model

| member | source | states |
|---|---|---|
| Bits.SetBitsReverse | simulator/sim_lib/utils.h:193-215 | writing a bit field, bit 0 being the most significant, stores the value modulo the field's width and stays a 64-bit word |
| Bits.GetSetOther | simulator/sim_lib/utils.h:165-215 | writing one bit field leaves every field that does not overlap it unchanged |
| Words.PutWord | simulator/sim_lib/utils.h:130-141 | a word written big-endian into a byte block is read back, all other bytes are unchanged |
| Words.WordValue | simulator/sim_lib/utils.h:130-141 | a word is its eight bytes, most significant first, as a number |
| MkfsDir.ChainAppend | simulator/mkfs_unicos/mkfs_unicos.cpp:937-956 | tightening the last record of a chain and putting one record behind it gives a chain whose entry list is the old one followed by exactly that entry |
| MkfsDir.SlackAfter | simulator/mkfs_unicos/mkfs_unicos.cpp:455-461 | the slack behind the last record shrinks by exactly the space of the new record |
| MkfsDir.PutEntry | simulator/mkfs_unicos/mkfs_unicos.cpp:953-956 | the bytes of a new entry decode to a record that holds its inode and name and reaches to the end of the block; the bytes before it are unchanged |
| MkfsDir.AppendedAt | simulator/mkfs_unicos/mkfs_unicos.cpp:942-956 | on bytes: the record at q is cut to its used length, the new record stands right behind it, everything before q is unchanged |
| MkfsDir.Appended | simulator/mkfs_unicos/mkfs_unicos.cpp:937-956 | for any block that is a chain with enough slack, the updated bytes are a chain again and decode to the old entries followed by the new one |
| MkfsDir.SlackIsSpace | simulator/mkfs_unicos/mkfs_unicos.cpp:455-461 | the slack of a directory block is 4096 less the space of its decoded entries |
| MkfsStore.GeometryOk | simulator/mkfs_unicos/mkfs_unicos.cpp:691-702 | for every disk of at least 256 blocks and a ratio that gives four inodes the regions of the image fit, in order, with room for two data blocks |
| MkfsStore.MapCovers | simulator/mkfs_unicos/mkfs_unicos.cpp:691-692 | for every disk, how many blocks at its end the block map misses: those behind the last full map block when they are fewer than 64, else none |
| MkfsStore.UncoveredDisk | simulator/mkfs_unicos/mkfs_unicos.cpp:691-692 | a disk of 32800 blocks is laid out with a map that misses its last 32 blocks |
| MkfsStore.RawPosInjective | simulator/mkfs_unicos/mkfs_unicos.cpp:815-818 | different map indices are different bits of the map although the bits of every byte are reversed |
| MkfsBytes.UnitInByte | simulator/mkfs_unicos/mkfs_unicos.cpp:815-818 | unit u of a map block is taken if and only if byte u / 8 of the block has the bit of weight 2^(7 - u % 8) |
| MkfsBytes.BlockMapBytes | simulator/mkfs_unicos/mkfs_unicos.cpp:815-867 | every byte of the block map of a consistent image, as a number: 255 up to the number of blocks in use, then one byte with its upper bits, then zeros |
| MkfsBytes.INodeMapBytes | simulator/mkfs_unicos/mkfs_unicos.cpp:815-890 | likewise every byte of the map of the inodes |
| MkfsBytes.RecordFields | simulator/mkfs_unicos/mkfs_unicos.cpp:440-457 | the lengths of a directory record from the bytes they are in: 22 and 10 bits at the end of the third word |
| MkfsBytes.NewRecordBytes | simulator/mkfs_unicos/mkfs_unicos.cpp:463-475 | a new directory record in numbers: inode, length of the rest of the block, length of the name, and the name |
| MkfsBytes.GeometrySizes | simulator/mkfs_unicos/mkfs_unicos.cpp:691-702 | one inode for `ratio` blocks up to one map block of them, 16 inodes and 512 map words a block, and no block more than these need |
| MkfsBytes.SmallestDisk | simulator/mkfs_unicos/mkfs_unicos.cpp:691-742 | where every region of a disk of 256 blocks is, and what the super block says of it |
| MkfsBytes.NewTree | simulator/mkfs_unicos/mkfs_unicos.cpp:1133-1153 | the tree of a new file system, node by node |
| MkfsBytes.NewNodes | simulator/mkfs_unicos/mkfs_unicos.cpp:1043-1096 | the tree after a new file and after a new directory, entry by entry and field by field |
| MkfsStore.FreeMapSet | simulator/mkfs_unicos/mkfs_unicos.cpp:820-828 | setting a bit of the block map adds exactly that block to the set of used blocks and changes nothing else of the decoded image |
| MkfsStore.INodeSet | simulator/mkfs_unicos/mkfs_unicos.cpp:892-901 | writing an inode into its block changes exactly that inode of the decoded image |
| MkfsStore.RawSet | simulator/mkfs_unicos/mkfs_unicos.cpp:668-677 | writing a data block changes the content of exactly that block, in a store that makes blocks on first use |
| MkfsView.ExtentsDisjoint | simulator/mkfs_unicos/mkfs_unicos.cpp:892-901 | no two places of any two files are the same block |
| MkfsView.FirstFit | simulator/mkfs_unicos/mkfs_unicos.cpp:830-846 | pigeonhole: the lowest clear bit of a map is at most the number of set bits |
| MkfsView.NodeFrame | simulator/mkfs_unicos/mkfs_unicos.cpp:959-1041 | a file none of whose blocks changed has the same content, entries and link count |
| MkfsSteps.CountersTakeBlock | simulator/mkfs_unicos/mkfs_unicos.cpp:848-856 | marking a free block keeps both free block counters equal to the disk blocks that are not marked |
| MkfsSteps.CountersTakeINode | simulator/mkfs_unicos/mkfs_unicos.cpp:869-880 | marking the next inode keeps all three inode counters exact, the count of used inodes starting from minus 2 modulo 2^64 |
| MkfsSteps.FirstFitInside | simulator/mkfs_unicos/mkfs_unicos.cpp:858-867 | first fit hands out blocks in order, and one inside the disk if and only if the free counter is positive |
| MkfsSteps.MapFull | simulator/mkfs_unicos/mkfs_unicos.cpp:858-867 | every bit of the map is set if and only if the map is no larger than the disk and the free counter is down to the blocks the map misses; it is never below that |
| MkfsSteps.FirstFitINode | simulator/mkfs_unicos/mkfs_unicos.cpp:882-890 | first fit hands out inode numbers in order, and one inside the reserved region if and only if the free counter is positive |
| MkfsSteps.GrowSound | simulator/mkfs_unicos/mkfs_unicos.cpp:1014-1036 | giving a file one more block keeps the image invariant and changes no other file |
| MkfsSteps.EndExtensible | simulator/mkfs_unicos/mkfs_unicos.cpp:1015-1030 | the file can be extended exactly when the next free block lies right behind its last one, it has no block yet, or an extent is left |
| MkfsSteps.AllExtentsUsed | simulator/mkfs_unicos/mkfs_unicos.cpp:1019-1029 | a file that cannot be extended has all of its eight extents in use |
| MkfsSteps.GrowFits | simulator/mkfs_unicos/mkfs_unicos.cpp:996-1037 | once a block is added the next one lies right behind it, so that there is room for n - 1 more if and only if there was for n |
| MkfsSteps.MergeExtent | simulator/mkfs_unicos/mkfs_unicos.cpp:1016-1018 | merging a block into the last extent adds exactly that block at the end of the file |
| MkfsSteps.NewExtent | simulator/mkfs_unicos/mkfs_unicos.cpp:1019-1029 | starting a new extent adds exactly that block at the end of the file |
| MkfsSteps.CursorPartial | simulator/mkfs_unicos/mkfs_unicos.cpp:984-994 | filling the room in the last block stores exactly the next piece of the data behind the old content |
| MkfsSteps.CursorFill | simulator/mkfs_unicos/mkfs_unicos.cpp:1002-1010 | filling an allocated block stores the next piece behind what is there already |
| MkfsSteps.CursorExtend | simulator/mkfs_unicos/mkfs_unicos.cpp:1012-1036 | allocating a block keeps what is stored so far |
| MkfsSteps.CursorFinish | simulator/mkfs_unicos/mkfs_unicos.cpp:1039-1040 | after size and block count are written the image is consistent and the tree is the old one with the data appended to that file only |
| MkfsSteps.NextEntryStep | simulator/mkfs_unicos/mkfs_unicos.cpp:937-956 | rewriting the block of a directory with one more record adds exactly that entry to that directory in the tree |
| MkfsSteps.FirstEntryStep | simulator/mkfs_unicos/mkfs_unicos.cpp:926-956 | the first record of a new directory makes it a directory of one entry with one block of its own |
| MkfsSteps.EmptyImage | simulator/mkfs_unicos/mkfs_unicos.cpp:788-812 | once the metadata is marked, the image is consistent, stands for the empty tree and has exactly the metadata blocks in use |
| MkfsTree.AppendKeepsLinks | simulator/mkfs_unicos/mkfs_unicos.cpp:959-1041 | appending data keeps every link count equal to the number of records that name the node |
| MkfsTree.MkFileKeepsLinks | simulator/mkfs_unicos/mkfs_unicos.cpp:1075-1096 | making a file keeps names and link counts exact over the whole tree |
| MkfsTree.MkDirKeepsLinks | simulator/mkfs_unicos/mkfs_unicos.cpp:1043-1073 | making a directory, with its two dot records and the parent's bumped count, keeps names and link counts exact over the whole tree |
| MkfsTree.RootLinks | simulator/mkfs_unicos/mkfs_unicos.cpp:903-905 | the root directory alone satisfies the link invariant, its second record naming itself |
| Mkfs.DiskImage.AllocateInMap | simulator/mkfs_unicos/mkfs_unicos.cpp:820-828 | sets exactly the map bit of the index, and fails exactly when it is set already |
| Mkfs.DiskImage.GetFreeEntry | simulator/mkfs_unicos/mkfs_unicos.cpp:830-846 | the index returned is clear and all lower ones are set; none is returned only when all bits are set |
| Mkfs.DiskImage.AllocateBlock | simulator/mkfs_unicos/mkfs_unicos.cpp:848-856 | marks the block and takes it off both free counters, or fails exactly when it is in use |
| Mkfs.DiskImage.AllocateINodeIdx | simulator/mkfs_unicos/mkfs_unicos.cpp:869-880 | marks the inode and adjusts all three counters, or fails exactly when it is in use |
| Mkfs.DiskImage.GetFreeBlock | simulator/mkfs_unicos/mkfs_unicos.cpp:858-867 | succeeds exactly when the free counter is above the number of blocks the map misses (on a disk that is covered: when it is positive), then returns the lowest free block, inside the disk, and marks it; which of the two failures comes follows from the counter and the geometry |
| Mkfs.DiskImage.GetFreeINodeIdx | simulator/mkfs_unicos/mkfs_unicos.cpp:882-890 | succeeds exactly when the free inode counter is positive and then returns the number of inodes in use |
| Mkfs.DiskImage.FindEnd | simulator/mkfs_unicos/mkfs_unicos.cpp:966-984 | the walk over the extents stops at the last live one, has counted all blocks, and finds the block in which the file ends |
| Mkfs.DiskImage.PlaceBlock | simulator/mkfs_unicos/mkfs_unicos.cpp:1015-1030 | the block is merged or a new extent started: the block list of the file grows by exactly it; refused exactly when it is not next to the last extent and all eight are in use |
| Mkfs.DiskImage.AppendToFile | simulator/mkfs_unicos/mkfs_unicos.cpp:959-1041 | succeeds exactly when the node exists and, from the state before the call, the blocks that the data takes behind the last one are free and covered by the map and the first of them can be added to the extents; then the tree is the old tree with the data appended to this node and nothing else changed |
| Mkfs.DiskImage.InsertEntry | simulator/mkfs_unicos/mkfs_unicos.cpp:937-956 | succeeds exactly when the name fits the slack and then gives the updated block; runs past the block exactly when it is completely full |
| Mkfs.DiskImage.AppendToDir | simulator/mkfs_unicos/mkfs_unicos.cpp:911-957 | succeeds on a one-block directory exactly when there is room, and adds exactly the entry at its end; the search runs past the block exactly when the records fill it completely |
| Mkfs.DiskImage.MkFile | simulator/mkfs_unicos/mkfs_unicos.cpp:1075-1096 | succeeds exactly when an inode is free and the parent has room; the result is consistent with exact link counts and differs by the new empty file and its record; the search runs past the parent's block exactly when an inode is free and the parent is full |
| Mkfs.DiskImage.MkDir | simulator/mkfs_unicos/mkfs_unicos.cpp:1043-1073 | succeeds exactly when a block that the map covers is free and there is no root yet or else an inode is free and the parent has room; the result is consistent with exact link counts and has the new directory, its dots, its record in the parent and the parent's higher link count, and nothing else new; also exactly when the search runs past the parent's block |
| Mkfs.DiskImage.constructor | simulator/mkfs_unicos/mkfs_unicos.cpp:1133-1153 | a new file system is consistent and holds exactly the root directory and the first directory below it, for every disk size and ratio in range |
| MkfsRun.ReplayKeeps | simulator/mkfs_unicos/mkfs_unicos.cpp:959-1096 | over any sequence of calls a node keeps its kind and its records, and its content is the old one followed by exactly the data appended to it, in call order |
| MkfsRun.NewFileContent | simulator/mkfs_unicos/mkfs_unicos.cpp:1112-1131 | a file made in a run ends up as the concatenation of what the run appends to it |
| MkfsRun.Call | simulator/mkfs_unicos/mkfs_unicos.cpp:959-1096 | each of the three calls, from any consistent image, is done exactly when there is room for it in the state before the call, and then does to the tree what it says |
| MkfsRun.Perform | simulator/mkfs_unicos/mkfs_unicos.cpp:1043-1131 | after any sequence of calls that does not abort the image is consistent with exact link counts and stands for the tree the calls describe |
| MkfsRun.FillsUp | simulator/mkfs_unicos/mkfs_unicos.cpp:937-956 | a directory with its two dots is filled to the last byte by three names of 1023 bytes and one of 864, none of which is refused |
| MkfsRun.LostFoundFillsUp | simulator/mkfs_unicos/mkfs_unicos.cpp:1133-1153 | so is the first directory of a new file system, whose next entry then runs past the block |
| MkfsRun.BlockFacts | simulator/mkfs_unicos/mkfs_unicos.cpp:848-901 | in a consistent image every block of a file is marked, behind the metadata, inside the disk and shared with no other place; all five counters equal what the maps say |
| MkfsRun.NoLeaks | simulator/mkfs_unicos/mkfs_unicos.cpp:848-901 | no block is lost: the marked blocks are exactly the lowest ones, and exactly the metadata and the blocks of the files |
| MkfsRun.ImageFacts | simulator/mkfs_unicos/mkfs_unicos.cpp:848-901 | the same of the image object, for the blocks and counters it stores |
| MkfsRun.CopyFile | simulator/mkfs_unicos/mkfs_unicos.cpp:1112-1131 | copying in pieces of a megabyte makes a file with exactly the bytes of the source, for every length including zero and multiples of the piece |
| DsWords.SetForward | simulator/ds_edit/ds_edit.cpp:90-91 | patching the forward index keeps every other field of the control word |
| DsWords.MarkWord | simulator/ds_edit/ds_edit.cpp:246-249 | a freshly cleared word set field by field has exactly these fields, the block distances modulo 2^20 and 2^15 |
| DsNumbers.FieldValues | simulator/ds_edit/ds_edit.cpp:88-107 | every field of a control word as a number |
| DsNumbers.ForwardValue | simulator/ds_edit/ds_edit.cpp:90-91 | patching the forward index replaces the low nine bits |
| DsNumbers.BlockValue | simulator/ds_edit/ds_edit.cpp:239-242 | a block control word is its number modulo 2^24 in units of 2^9 |
| DsNumbers.MarkValue | simulator/ds_edit/ds_edit.cpp:246-249 | a mark is type * 2^60 + unused bits * 2^54 + file distance * 2^24 + record distance * 2^9, the distances modulo 2^20 and 2^15 |
| DsNumbers.OneRecord | simulator/ds_edit/ds_edit.cpp:211-340 | the whole file for one record in one block, in numbers: count of data words, data, unused bits, and the marks |
| DsNumbers.SampleFile | simulator/ds_edit/ds_edit.cpp:211-340 | the five words of the file for a record of the byte 0x61 |
| DsNumbers.ReadFails | simulator/ds_edit/ds_edit.cpp:379-399 | reading fails for want of a word, at an end of data, or at a word of no known type |
| DsWords.UnpackPack | simulator/ds_edit/ds_edit.cpp:400-403 | a record padded to whole words and cut to its length again is the record |
| DsWords.PackSplit | simulator/ds_edit/ds_edit.cpp:252-273 | packing a record piece by piece at word boundaries is packing it at once |
| DsWords.FirstNibble | simulator/ds_edit/ds_edit.cpp:76-85 | the type field of the first data word of a record is the upper half of its first byte |
| DsLayout.LayLength | simulator/ds_edit/ds_edit.cpp:219-250 | the words of a record, control words included, end where the block arithmetic says |
| DsLayout.NextOfLay | simulator/ds_edit/ds_edit.cpp:379-399 | following forward indices over the block control words of a laid-out record gives back exactly its words and stops at the mark behind it |
| DsStructure.RenderHolds | simulator/ds_edit/ds_edit.cpp:211-340 | the file of any sequence of calls holds, from any position on, exactly those calls: payload, kind, padding and place of every mark |
| DsStructure.DatasetWalks | simulator/ds_edit/ds_edit.cpp:191-340 | for every sequence of calls the forward indices lead from word 0 through the whole file; no hop passes a block start; without block control words the marks met are those of the calls, in order, with all their fields, then one end of data |
| DsStructure.DatasetBlocks | simulator/ds_edit/ds_edit.cpp:237-245 | every block of the file starts with a block control word numbered by its index modulo 2^24 |
| DsStructure.DatasetDistances | simulator/ds_edit/ds_edit.cpp:246-249 | the distances in every mark, from the marks before it alone: blocks back to the mark before, and to the last end of file |
| DsReader.ReadsRecord | simulator/ds_edit/ds_edit.cpp:379-408 | ReadRecord from the mark before a record returns it byte for byte and stops before its end of record |
| DsReader.RecordsRoundTrip | simulator/ds_edit/ds_edit.cpp:211-408 | any list of records, empty, unaligned or spanning blocks, is read back unchanged by as many ReadRecord calls |
| DsExtract.EofSeen | simulator/ds_edit/ds_edit.cpp:342-358 | what IsEof answers at an end of record, from the position in the block and the first byte of what follows |
| DsExtract.EodSeen | simulator/ds_edit/ds_edit.cpp:360-377 | what IsEod answers at an end of file, likewise |
| DsExtract.FileExtracted | simulator/ds_edit/ds_edit.cpp:587-593 | the records of one file come out unchanged if and only if the file is safe; otherwise the loop fails or returns other records |
| DsExtract.ExtractOfCreate | simulator/ds_edit/ds_edit.cpp:580-598 | for every list of files, extracting what was created gives the same files if and only if every file has a record, no end of record that closes a file and no final end of file is the last word of a block, no later record starts with nibble 0xE and no first record of a later file with 0xF behind a mark in the same block |
| DsExtract.LooksLikeEof | simulator/ds_edit/ds_edit.cpp:345-350 | a file of two records whose second is the byte 0xE0 does not come back |
| DsExtract.EndsAtBlock | simulator/ds_edit/ds_edit.cpp:237-245 | a file of one record of 4080 bytes does not come back |
| DataSets.DataSet.WriteRecord | simulator/ds_edit/ds_edit.cpp:211-275 | appends exactly the laid-out record to the file and block buffer and holds back its end of record with the block distances; terminates although a turn at offset 4088 takes no data |
| DataSets.DataSet.WriteEof | simulator/ds_edit/ds_edit.cpp:277-305 | puts out the word held back and holds back the end of file; the next file starts in its block |
| DataSets.DataSet.Flush | simulator/ds_edit/ds_edit.cpp:307-340 | the file on disk is what the calls so far and an end of data describe |
| DataSets.DataSet.ReadRecord | simulator/ds_edit/ds_edit.cpp:379-408 | the loop returns the record, position and error that the walk along the control words defines, on any file |
| DataSets.DataSet.IsEof | simulator/ds_edit/ds_edit.cpp:342-358 | the answer and the position for any file and position, a short file included |
| DataSets.DataSet.IsEod | simulator/ds_edit/ds_edit.cpp:360-377 | the answer and the position for any file and position, a short file included |
| DsFiles.Create | simulator/ds_edit/ds_edit.cpp:483-521 | writes exactly the dataset of the records cut from the local files, binary and text, and their ends of file |
| DsFiles.AddBinary | simulator/ds_edit/ds_edit.cpp:492-505 | the reading loop adds exactly the full records of the file |
| DsFiles.AddText | simulator/ds_edit/ds_edit.cpp:507-517 | the line loop adds exactly the lines that are ended, without their ends |
| DsFiles.ChunksWritten | simulator/ds_edit/ds_edit.cpp:493-504 | writing the records of a binary file back gives the file without the rest that is no full record |
| DsFiles.RecordLengths | simulator/ds_edit/ds_edit.cpp:493-504 | every record of a binary file has the size asked for |
| DsFiles.OneRecordFile | simulator/ds_edit/ds_edit.cpp:494-494 | a file no longer than the record size is one record |
| DsFiles.SampleLines | simulator/ds_edit/ds_edit.cpp:508-516 | the lines of a text with CR LF and LF ends, an empty line and a line that is not ended, and what is written back |
| DsFiles.LinesWritten | simulator/ds_edit/ds_edit.cpp:508-516 | writing the lines of a text file back gives the file if and only if its last line is ended and no line has a carriage return before its end; it is never longer |
| DsFiles.FilesComeBack | simulator/ds_edit/ds_edit.cpp:483-598 | creating and extracting any list of local files whose records are safe: as many files, and each one byte for byte if and only if its records lost nothing |
| DataSets.DataSet.Extract | simulator/ds_edit/ds_edit.cpp:580-598 | the nested loops return the files, or the error, of the extraction of any file |
| Gf2.TimesAdd | simulator/disk_decode/disk_decode.cpp:552-553 | multiplication by the generator is linear over bit-wise addition |
| Gf2.BurstDetected | simulator/disk_decode/disk_decode.cpp:550-569 | a multiple of the generator altered by any non-zero burst within 32 positions is no multiple |
| Gf2.OddErrorsDetected | simulator/disk_decode/disk_decode.cpp:550-569 | a multiple of the generator with an odd number of bits altered is no multiple |
| DiskCrc.CrcSnoc | simulator/disk_decode/disk_decode.cpp:557-567 | the sum of code words over the payload is the usual shift register of the CRC |
| DiskCrc.Division | simulator/disk_decode/disk_decode.cpp:557-567 | payload followed by 32 zeros is quotient times generator plus the computed CRC |
| DiskCrc.CrcIsRemainder | simulator/disk_decode/disk_decode.cpp:550-569 | payload and CRC match if and only if together they are a multiple of x^32+x^23+x^21+x^11+x^2+1 |
| DiskCrc.GeneratorTerms | simulator/disk_decode/disk_decode.cpp:552-552 | which powers the generator has |
| DiskCrc.BinInt | simulator/disk_decode/disk_decode.cpp:539-548 | the last 64 bits of the range, most significant first; zero for an empty range |
| DiskCrc.Validate | simulator/disk_decode/disk_decode.cpp:550-569 | accepts the range if and only if it is a multiple of the generator polynomial; a range too short for a CRC, if and only if the last 32 bits up to its end are zero |
| DiskCrc.FlipsDetected | simulator/disk_decode/disk_decode.cpp:550-569 | no accepted range stays accepted after a burst within 32 positions, payload and CRC alike, or an odd number of flips |
| PulseDecode.DecodedLength | simulator/disk_decode/disk_decode.cpp:494-523 | the half bits consumed are twice the bits produced, less one when the current bit is a one |
| PulseDecode.EncodeOfDecode | simulator/disk_decode/disk_decode.cpp:494-523 | an explicit encoder gives back the classes of any accepted sequence from its bits |
| PulseDecode.DecodeOfEncode | simulator/disk_decode/disk_decode.cpp:494-523 | every bit string that does not start with a one is the decoding of its encoding |
| PulseDecode.DecodeInjective | simulator/disk_decode/disk_decode.cpp:494-523 | no two accepted class sequences decode to the same bits |
| PulseDecode.OnesAreMiddles | simulator/disk_decode/disk_decode.cpp:494-523 | a bit is a one if and only if some pulse ends in the middle of its cell of two half bits |
| PulseDecode.PulseOfTable | simulator/disk_decode/disk_decode.cpp:447-450 | even runs are looked up in the low table and odd ones in the high one; what is wider than the table counts as its last entry |
| PulseDecode.PulsesOfTables | simulator/disk_decode/disk_decode.cpp:485-490 | the pulse of run i of a scan, from the low table for even i and the high one for odd i |
| PulseDecode.ErrorsAre | simulator/disk_decode/disk_decode.cpp:492-492 | the error count is the number of pulses in error among those looked at |
| PulseDecode.ReachIsLongest | simulator/disk_decode/disk_decode.cpp:491-522 | the decoder stops behind the longest accepted prefix |
| PulseDecode.Decode | simulator/disk_decode/disk_decode.cpp:477-525 | for any range, the loop returns the bits of the longest accepted prefix and the errors of the pulses looked at, a rejected one of known length included |
| TruncMult.QIsPairSum | simulator/sim_lib/cray_float.cpp:132-137 | the shift-and-add sum is exactly the sum of the bit pairs whose places add up to at least m |
| TruncMult.QCommutes | simulator/sim_lib/cray_float.cpp:132-137 | the truncated product does not depend on the order of the factors |
| TruncMult.QAccuracy | simulator/sim_lib/cray_float.cpp:132-137 | the truncated product never exceeds the exact one and falls short by at most m units |
| TruncMult.FractionalMult | simulator/sim_lib/cray_float.cpp:315-321 | for any 64-bit operands and up to 64 places: the truncated product modulo 2^64 |
| TruncMult.FractionalMultCommutes | simulator/sim_lib/cray_float.cpp:315-321 | the same result both ways round |
| CrayFloat.Normalize | simulator/sim_lib/cray_float.cpp:973-981 | the loop ends with the normalized number |
| CrayFloat.NormalizeKeepsValue | simulator/sim_lib/cray_float.cpp:973-981 | for a non-zero fraction: same sign, fraction times 2^k with the exponent lowered by k, top bit set or exponent at most the minimum, and k as small as possible |
| CrayFloat.NormalizeTwice | simulator/sim_lib/cray_float.cpp:973-981 | normalizing again changes nothing |
| CrayFloat.Add | simulator/sim_lib/cray_float.cpp:24-83 | the branches on exponents and signs compute the aligned signed sum, with its carry shift, normalization and underflow |
| CrayFloat.SumCommutes | simulator/sim_lib/cray_float.cpp:24-83 | addition is commutative, the sign of equal and opposite operands included |
| CrayFloat.SubSelf | simulator/sim_lib/cray_float.cpp:85-93 | subtracting a number from itself gives zero |
| CrayFloat.SumAccuracy | simulator/sim_lib/cray_float.cpp:24-83 | for any two numbers: the final result, shifted, normalized and checked for underflow, is the exact sum to within less than one unit of the larger exponent, or of the next one when it carries; exactly it with equal exponents and no carry; zero when the carry leaves the 15 bits of the exponent |
| CrayFloat.SumIsNormal | simulator/sim_lib/cray_float.cpp:78-82 | every sum is normalized |
| CrayFloat.SumTruncates | simulator/sim_lib/cray_float.cpp:36-80 | what is lost in a sum is lost from the operand with the smaller exponent, towards zero |
| CrayFloat.OneAndOne | simulator/sim_lib/cray_float.cpp:24-83 | one and one make two, in the codes of the format |
| CrayFloat.PlusZero | simulator/sim_lib/cray_float.cpp:24-83 | adding zero normalizes a number, and gives zero below the smallest exponent |
| CrayFloat.MultiplyFractions | simulator/sim_lib/cray_float.cpp:117-137 | the 48 steps compute the truncated product from place 39 on; no partial sum overflows |
| CrayFloat.Mult | simulator/sim_lib/cray_float.cpp:95-166 | the whole multiplication, for every flag setting, gives the product defined symmetrically from the truncated product |
| CrayFloat.Complement | simulator/sim_lib/cray_float.cpp:128-143 | complementing the correction and the sum subtracts the product from the correction, modulo 2^64 |
| CrayFloat.ProductCommutes | simulator/sim_lib/cray_float.cpp:95-166 | multiplication is commutative for every flag setting, integer and underflow cases included |
| CrayFloat.LowFraction | simulator/sim_lib/cray_float.cpp:117-143 | the 57 bits that are looked at hold the truncated product and the correction, or two less it, exactly when that fits; otherwise less than the correction is left |
| CrayFloat.FractionAccuracy | simulator/sim_lib/cray_float.cpp:117-163 | in every mode, the fraction kept is the exact one to within one unit of its last place if and only if product and correction fit; rounded it is never below it; otherwise next to nothing is kept |
| CrayFloat.PlainFits | simulator/sim_lib/cray_float.cpp:117-139 | plain and rounded products always fit the 57 bits |
| CrayFloat.RoundsUp | simulator/sim_lib/cray_float.cpp:117-163 | except in the two-minus form: the fraction kept is the truncated product in whole last places, one more exactly when what is left reaches the headroom of the mode, 18, 210, 0x3000012 or 0x30000D2 units |
| CrayFloat.TimesOne | simulator/sim_lib/cray_float.cpp:95-166 | one is neutral for every number in range |
| CrayFloat.OperandRanges | simulator/sim_lib/cray_float.cpp:101-116 | two numbers without exponent multiply as integers; an operand with an exponent below the smallest makes the product zero |
| CrayFloat.HalfPrecisionLost | simulator/sim_lib/cray_float.cpp:117-163 | in half precision two fractions of all ones do not fit: the product has fraction zero |
| CrayFloat.TwoMinusLost | simulator/sim_lib/cray_float.cpp:117-163 | in the form for reciprocal iteration a product below the smallest correction gives fraction zero instead of two |
| CrayFloat.CarryIsHalf | simulator/sim_lib/cray_float.cpp:146-153 | the result is shifted when the exact fraction is one half or more, up to the correction |
| CrayFloat.ProductAccuracy | simulator/sim_lib/cray_float.cpp:95-166 | for any two numbers in any mode: when the product is zero, and else its sign, its exponent with the carry, and that its fraction is the exact one, or two less it, to within one unit if and only if it fits; otherwise next to nothing |
| IntMult.LowProduct | simulator/sim_lib/cray_cpu_inst_0140_0177.h:19-33 | the first loop ends and adds 9 and the truncated product of its 48-bit operands, without overflow |
| IntMult.HighProduct | simulator/sim_lib/cray_cpu_inst_0140_0177.h:34-50 | the second loop multiplies two 15-bit numbers exactly |
| IntMult.IntMult | simulator/sim_lib/cray_cpu_inst_0140_0177.h:12-57 | what the routine computes, for any 64-bit operands |
| IntMult.RoutineIsProduct | simulator/sim_lib/cray_cpu_inst_0140_0177.h:535-549 | for all x below 2^33 and y below 2^48, shifted as the instruction asks, the result is x*y modulo 2^32: the simple formula |
| HttpParser.RunInPieces | simulator/httpd/request_parser.hpp:37-49 | parsing a first piece and then a second is parsing both at once while more is wanted; otherwise the second piece does not matter |
| HttpParser.RequestParser.Consume | simulator/httpd/request_parser.cpp:27-283 | one character changes state and request, and is answered, exactly as the grammar automaton says |
| HttpParser.RequestParser.Parse | simulator/httpd/request_parser.hpp:37-49 | the loop over a piece of input gives result, state, request and characters used of the automaton's run |
| HttpParser.RequestParser.Reset | simulator/httpd/request_parser.cpp:22-25 | the next request starts in the first state |
| HttpSyntax.Agrees | simulator/httpd/request_parser.cpp:27-283 | in every state with any character, parser and recognizer go on together: same state, same fields, and the text read grows by that character |
| HttpGrammar.GoodIsGrammatical | simulator/httpd/request_parser.cpp:27-283 | whatever is accepted is the text of a syntax tree, read to its last character, and the request is what the tree means |
| HttpGrammar.GrammaticalIsGood | simulator/httpd/request_parser.cpp:27-283 | the text of every syntax tree, followed by anything, is accepted; exactly that text is used and the request is what the tree means, folded header lines and version digits included |
| HttpGrammar.RenderInjective | simulator/httpd/request_parser.cpp:27-283 | different syntax trees have different texts |
| HttpAnswers.IndeterminateIffStart | simulator/httpd/request_parser.hpp:37-49 | the parser wants more if and only if what it has been given is a proper start of the text of some tree |
| HttpAnswers.GoodIffWhole | simulator/httpd/request_parser.hpp:37-49 | it is content if and only if the text of some tree is there in full, whatever follows |
| HttpAnswers.BadIffNeither | simulator/httpd/request_parser.hpp:37-49 | it refuses if and only if no text of a tree starts with the input or is its start |
| HttpClasses.StepInCodes | simulator/httpd/request_parser.cpp:27-312 | in every state every character, by its code, leads exactly where the table of codes says: token signs, control characters, the letters of the version, and line ends |
| HttpClasses.SampleParsed | simulator/httpd/request_parser.hpp:37-49 | a request with method, URI, version 1.10, a header and a continuation line, character by character, and the fields it fills in |
| IopStack.CallsReturn | simulator/sim_lib/cray_iop.h:339-367 | from any index on, any nested run with at most 16 live addresses returns to each call its own address, wrap-around included |
| IopStack.FlagGuards | simulator/sim_lib/cray_iop.h:339-367 | while the boundary flag is clear the index counts calls minus returns without wrapping and the interrupt vector is untouched |
| IopStack.FlagRaised | simulator/sim_lib/cray_iop.h:339-367 | a run raises the boundary flag if and only if it reaches slot 14 or returns at slot 0 |
| IopStack.ControlEffects | simulator/sim_lib/cray_iop_built_in_channels.cpp:52-77 | setting the index and writing the slot there decides where the next return goes and changes nothing else; clearing the flag changes only that |
| IopStack.ExitStack.PushAddr | simulator/sim_lib/cray_iop.h:339-352 | index, slot and flag after a push, every other slot unchanged |
| IopStack.ExitStack.PopAddr | simulator/sim_lib/cray_iop.h:353-367 | address returned, index and flag after a pop, all slots unchanged |
| IopStack.ExitStack.DoIo | simulator/sim_lib/cray_iop_built_in_channels.cpp:52-77 | the channel functions read and write exactly the index, the slot at it, the flag and the interrupt enable |
| IopInterrupts.StillOff | simulator/sim_lib/cray_iop.cpp:884-890 | with interrupts off, any number of checks and delaying instructions take no interrupt |
| IopInterrupts.EnableIsDelayed | simulator/sim_lib/cray_iop.cpp:884-890 | after I=1 from I=0 no interrupt is taken until a later instruction that is no branch, return, test of any channel or function of an existing channel completes; then the first pending one is |
| IopInterrupts.NoChannelEndsDelay | simulator/sim_lib/cray_iop.cpp:1129-1186 | a channel function of a channel that does not exist ends the delay |
| IopInterrupts.EnablesBehind | simulator/sim_lib/cray_iop.cpp:884-890 | which instruction directly behind I=1 turns interrupts on: a plain one or a function of an absent channel |
| IopInterrupts.EndsBurst | simulator/sim_lib/cray_iop.cpp:1129-1186 | a burst ends behind what delays the enable, but for jumps and calls not taken, and behind functions of absent channels |
| IopInterrupts.InterruptLeads | simulator/sim_lib/cray_iop.cpp:835-838 | an interrupt leads to the address in slot 0, with interrupts off; to the interrupted one when the push wraps around to that slot |
| IopInterrupts.NextAddress | simulator/sim_lib/cray_iop.cpp:853-894 | the address after every kind of instruction |
| IopInterrupts.CallReturns | simulator/sim_lib/cray_iop.cpp:990-1020 | a call leads to its target, and a subroutine of nested calls returns behind it |
| IopInterrupts.HandlerReturns | simulator/sim_lib/cray_iop.cpp:816-848 | a handler of nested calls that writes neither the index nor the slots of the exit stack and ends with I=1 and EXIT returns to the interrupted address, with the index back where it was, no interrupt in between, and the enable still waiting |
| IopInterrupts.HandlerDiverted | simulator/sim_lib/cray_iop_built_in_channels.cpp:71-76 | a handler that writes the slot at the index by the channel's function 015 returns to what it has written |
| IopInterrupts.NeverBoth | simulator/sim_lib/cray_iop.cpp:1254-1267 | a run executes I=1 only with interrupts off if and only if no state along it has interrupts on and an enable waiting |
| IopInterrupts.EnabledTwice | simulator/sim_lib/cray_iop.cpp:816-848 | with I=1 executed twice a second interrupt is taken behind the first instruction of the handler |
| IopInterrupts.IopCpu.SingleStep | simulator/sim_lib/cray_iop.cpp:853-894 | one instruction, functions of the exit stack's channel included, changes program counter, interrupt enable and exit stack, and breaks the burst, as the step relation says |
| IopInterrupts.IopCpu.Tick | simulator/sim_lib/cray_iop.cpp:816-848 | one tick is a check for interrupts of all channels, which starts a processor in reset, followed, unless it is still in reset, by a burst that ends early only behind an instruction that breaks it |
| IopMos.SwapTwice | simulator/sim_lib/utils.h:143-150 | swapping the bytes of each 16-bit word twice changes nothing |
| IopMos.SwapMoves | simulator/sim_lib/utils.h:143-150 | the upper and lower halves of the four 16-bit parcels change places, as numbers |
| IopMos.BufferGets | simulator/sim_lib/cray_iop_built_in_channels.cpp:219-232 | word k of a transfer to the buffer arrives with its bytes swapped unless a later word goes to the same place |
| IopMos.BufferElsewhere | simulator/sim_lib/cray_iop_built_in_channels.cpp:219-232 | places of the buffer that no word goes to are unchanged |
| IopMos.IoGets | simulator/sim_lib/cray_iop_built_in_channels.cpp:233-249 | every word of a transfer to I/O memory arrives and all other words are unchanged |
| IopMos.BackAgainIffApart | simulator/sim_lib/cray_iop_built_in_channels.cpp:200-262 | for any addresses and size, I/O memory to buffer and back keeps every I/O memory if and only if no two words of the transfer share a place in the buffer |
| IopMos.BackAgainIffFits | simulator/sim_lib/cray_iop_built_in_channels.cpp:200-262 | that is, if and only if the transfer fits the buffer, when the buffer address does not wrap around or the buffer's size divides 2^32 |
| IopMos.ChannelMOS.DoTransfer | simulator/sim_lib/cray_iop_built_in_channels.cpp:200-262 | moves exactly the given number of words, 0 standing for the whole memory, ends idle and done, leaves the other memory alone and both addresses advanced |
| IopMos.ChannelMOS.DoIo | simulator/sim_lib/cray_iop_built_in_channels.cpp:156-198 | each function changes exactly its part of the addresses, flags or memories |
| IopMos.ChannelMOS.DeadStart | simulator/sim_lib/cray_iop.h:437-437 | the whole I/O memory is loaded from the start of the buffer, bytes swapped, repeating a smaller buffer |
| Semaphores.InvKept | simulator/sim_lib/cray_cpu_inst_0000_0037.h:625-660 | every small step of any CPU keeps the lock exclusive and the blocked counter equal to the flags, up to the one flag being updated |
| Semaphores.CounterIsExact | simulator/sim_lib/cray_cpu_inst_0000_0037.h:636-650 | after any interleaving, whenever no CPU is between counting and flagging, the counter is the number of flagged CPUs, so it reaches their number only when all are flagged |
| Semaphores.FiresWhenAllFlagged | simulator/sim_lib/cray_cpu_inst_0000_0037.h:644-655 | the deadlock message is given exactly when a failed test-and-set ends with every CPU flagged |
| Semaphores.MutualExclusion | simulator/sim_lib/cray_cpu_inst_0000_0037.h:625-685 | if CPUs clear only what they acquired and set nothing directly, no two CPUs hold the same semaphore after any interleaving, and what is held is set |
| Semaphores.ExclusionFromStart | simulator/sim_lib/cray_cpu_inst_0000_0037.h:625-685 | in particular after any such interleaving from the start |
| Semaphores.FiveSteps | simulator/sim_lib/cray_mainframe.h:40-48 | an uninterrupted test-and-set is one atomic step |
| Semaphores.SetThenTest | simulator/sim_lib/cray_cpu_inst_0000_0037.h:658-685 | after a direct set the next test-and-set of that semaphore fails, after a clear it passes; no other semaphore changes |
| Semaphores.DeadlockIsForever | simulator/sim_lib/cray_cpu_inst_0000_0037.h:643-656 | when all CPUs are flagged and everything waited for is set, no interleaving of retries changes anything |
| Semaphores.StuckIffAllSet | simulator/sim_lib/cray_cpu_inst_0000_0037.h:643-656 | with all CPUs flagged and none inside the instruction, no sequence of retries lets any CPU pass if and only if everything waited for is set |
| Semaphores.RealDeadlock | simulator/sim_lib/cray_cpu_inst_0000_0037.h:643-656 | in any reachable state in which the message is given: all CPUs stay flagged under every sequence of retries if and only if everything waited for is still set |
| Semaphores.FalseAlarm | simulator/sim_lib/cray_cpu_inst_0000_0037.h:636-655 | a run of two CPUs that gives the message although a CPU could go on |
| Semaphores.InterCpuCluster.TestAndSetBy | simulator/sim_lib/cray_cpu_inst_0000_0037.h:625-660 | the whole instruction: passes exactly when the semaphore was clear, otherwise repeats, with the message exactly when all CPUs are flagged; semaphore, flag and counter afterwards are those of the protocol's step |
| Semaphores.InterCpuCluster.ClearBy | simulator/sim_lib/cray_cpu_inst_0000_0037.h:658-671 | clears exactly that semaphore, without the lock; an index out of bounds changes nothing |
| Semaphores.InterCpuCluster.SetBy | simulator/sim_lib/cray_cpu_inst_0000_0037.h:672-685 | sets exactly that semaphore, without the lock; an index out of bounds changes nothing |

## Left out

- Mkfs.DiskImage.AppendToFile: asks for at most 2^44 - 4096 bytes of data, because the number of blocks needed is kept in 32 bits and wraps around beyond that, and for an inode number inside the inode blocks; any other block is not an inode block in the model.
- MkfsRun.Perform: asks the same of every call of the run.
- Mkfs.DiskImage.constructor: asks for at least 256 blocks, as the program does, for fewer than 2^32 blocks and for a ratio that gives at least four inodes; below that the first directories do not fit.
- Mkfs.DiskImage.GetFreeBlock: stops where the search leaves the disk instead of handing out that block, so nothing is said about an image after its free counter has wrapped around.
- Mkfs.DiskImage.GetFreeINodeIdx: likewise stops when no inode of the region is free, where the source goes on with an index behind the region.
- Mkfs.DiskImage.MkFile: likewise stops then, where the source makes a file with an inode behind the region.
- Mkfs.DiskImage.MkDir: likewise stops then, where the source makes a directory with an inode behind the region.
- DiskCrc.Validate: asks for a start of at least 1 and an end of at least 33, because the loop's unsigned index wraps around otherwise and leaves the data.
- DsFiles.Create: asks for binary files that are not empty and record sizes above zero, because the program writes empty records without end otherwise; the byte in memory before a text line is taken to be no line end, which the program reads for an empty line.
- HttpParser.RequestParser.Consume: version numbers are unbounded; the overflow of the source's `int` is not modelled.
- IopInterrupts.IopCpu.SingleStep: an instruction is its control flow; its operands and conditions are parameters.
- IopInterrupts.IopCpu.Tick: whether each channel is interrupting is a parameter; the channels' own ticks, and stalling in the multi-threaded build, are not modelled.
- The values of file system fields that nothing computes with: name signatures, owners, modes, dates, magic numbers, device names, and the word layout of super block, dynamic block and inodes, which are records here.
- Writing the image and the copies of the super block to disk, and opening local files: a file's bytes are a parameter.
- Reopening a dataset, several lifetimes of one writer, files whose length is no multiple of eight bytes, and the options of the two programs.
- Fold, histogram and floating-point heuristics around the disk scan decoder; the pulse tables are parameters.
- Reciprocal approximation, conversion to host floating point, and the exponent range above the maximum, which the source does not check either.
- Instructions of the I/O processor are reduced to their control flow; operands and conditions are parameters, breakpoints are not modelled.
- The write of a whole register of semaphores (`SM Si`): it is 32 of the steps `Set` and `Clear`, without regard to holders, so that a run with one is not disciplined.
- Changing clusters, exchange packets and master clear: cluster membership is fixed.
- The interleaving of CPUs at the semaphores is modelled on values, as a state and its steps, without the machine's memory order; the object `InterCpuCluster` has whole instructions.
- Consoles, sockets, logging, configuration and disassembly text.
