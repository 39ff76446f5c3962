# A verified model of dbfs

dbfs is the file store of the mangoo framework: a small file system laid over one ordered key/value map, a Berkeley DB
B-tree. Three kinds of key share the tree, in this order: one fsinfo record (the inode counter), one entry for each path,
and one 4096-byte block for each (inode, offset). Directories do not exist as such; they are string-prefix ranges of the
sorted entries. This project models the store (`src/stores/dbfs`) and the FUSE code that resumes directory listings
(`src/apps/fuse/mangoofuse.c`), and proves what whole runs of them keep.

Results, hardest first:

* **Whole runs refine a flat file system** (`Runs.RunRefines`). Any run of mounts, creates, deletes, opens, writes, reads
  and size changes, with any I/O operation failing at any point and whatever `malloc` left in fresh blocks, agrees with a
  file system that knows only paths, sizes and written bytes (`FlatFs`). Writes may be sparse and sizes may grow, entries may be
  made anywhere, and a delete may remove another record than its own unless that is the counter's or an open entry's.
* **Files without holes are byte sequences** (`Runs.WholeRunContents`, `Runs.WholeRunLaws`): if a file is only written at or
  below its end and only shrunk, its blocks are all stored and every call acts on it as on one sequence.
* **Exactly-once listing** (`MangooFuse.ExactlyOnce`, `SessionCompletes`, `ListDirectory`): the bounded-buffer protocol of
  `mf_readdir` loses and repeats nothing, for any buffers; `FirstCall`, `ResumedCall`, `FailedCall` and `RetriedCall` give the
  exact conditions, call by call. If entries come and go between the calls, every entry that is stored all along is still
  delivered exactly once (`ChangingStore.StableEntriesDelivered`, `NamesDeliveredOnce`), and the session still ends
  (`SomeCallIsEmpty`).
* **Inodes and isolation**, for all runs with at most 1000 create calls for a mount, whatever the paths, the parents and the keys
  that deletes remove: inodes are never reused, new files are blank, and files do not see each other's bytes
  (`Inodes.InodesNeverReused`, `NewFileIsBlank`, `FilesAreIsolated`); the 1000 is exactly tight (`Runs.BatchIsTight`,
  `CollidingFiles`).
* **Parents stay live** (`Parents.ParentsLive`) in all runs that create under existing containers and keep no handle across a
  delete, with any number of creates; and exactly when a delete or a kept handle breaks this (`DeleteKeepsParents`,
  `InPlaceDelete`, `HandleStores`, with the runs `OrphanIsMade` and `KeptHandleMakesOrphan`).
* **Exact listing and exact refusal** (`Directory.ListingIsExact`, `Parents.RefusalIsExact`): what a prefix scan shows, and when a
  container cannot be removed in the same runs, resting on the prefix intervals of the key order (`Keys`).

How the parts fit: each operation is a method over the mutable tree and handle objects, and its `ensures` is a predicate on
values (`WriteOutcome`, `DeleteOutcome`, `Call`, ...). The state machine of `System` takes these same predicates as its
steps, with the non-determinism of I/O failures and `malloc` left open, and `Runs` argues over all its traces. On a reliable
map (`Store.Db.reliable`) no operation fails, and every contract says what the call then returns; "without I/O failure" below
means that. `System.NoFault` carries it into the runs: there the state alone decides the answers (`Runs.FaultlessCalls`).
`Client` closes the gap: a caller object that makes the calls on the heap, each of whose methods is verified to be one step of that machine.

Files: `CStrings` (string functions), `Keys` (key order), `Store` (the B-tree contract and record types), `Blocks` (what
block writes mean), `Attributes` (handles and records), `Stream`, `Paths`, `Directory`, `Filler`, `MangooFuse`, `Dbfs`,
`ChangingStore` (sessions over a store that changes), `FlatFs` (the abstract file system), `System` (steps and runs), `Inodes`
(what the numbers promise), `Parents` (what the names promise), `Runs` (refinement and contents), `Client` (the steps as method
calls). Each of `Inodes`, `Parents` and `Runs` has its own run predicate with the rules that its results need, and no others:
`CountedRun`, `NamedRun` and `Run`, each a `System.Trace` of calls on the store that `mkdbfs` made.

## Where the code does not do what one would expect

The model keeps the code as it is. In each case the exact condition is proved.

* `dbfs_truncateblocks` (src/stores/dbfs/stream.c:127) loops on `size <= 0` with an unsigned size. A shrink therefore deletes no
  block, and deleting an empty data file never returns unless an I/O operation fails (`Stream.TruncateBlocks`,
  `Dbfs.DataDeleteReturns`). A loop that need not end is observed for any number of laps. The `while(size)` form of the top-level
  backup `stream.c~` ends, but it also deletes the block that holds the new end of a shrunk file: shrinking with it keeps the
  remaining bytes exactly when the new size is on a block boundary or in a hole (`Stream.TruncateKeepsPrefix`).
* `dbfs_read` past the end returns 0 and leaves the caller's size as it was, so it claims bytes it did not read; the result is
  right exactly when the offset is not past the end or nothing was asked for (`Stream.ReadIsSlice`).
* A read whose last block is a hole returns `DB_NOTFOUND` although it filled the buffer (`Stream.ReadWrite`).
* A directory `/a` takes its sibling `/ab` for a child, named `b`: it lists it and refuses to be removed
  (`Directory.ListsChildrenExactly`, `Parents.RefusalIsExact`, `Directory.SiblingIsMistakenForChild`).
* `dbfs_deld` lends its handle's own key buffer to a cursor (src/stores/dbfs/dir.c:80-82), and `dbfs_dela` then deletes the key it
  finds in that buffer (src/stores/dbfs/attr.c:354). What a cursor move leaves there is a parameter of the model. The entry that
  goes is the named one exactly when it is a data entry, there was no later key, or the buffer was left alone
  (`Dbfs.OwnEntryGoes`). When the cursor stores the key it found in place, a container with a later key stays and the next
  record goes instead (`Dbfs.OwnEntryGoesInPlace`): another entry (`Dbfs.NextEntryGoesInPlace`) or the first block of a file
  (`Dbfs.FileBlockGoesInPlace`). Parents stay live exactly when that next key is not an entry with a child
  (`Parents.InPlaceDelete`; `Parents.OrphanIsMade` is a run that ends with an orphan), and another file is kept exactly when it is
  not a key of that file (`Inodes.DeleteIsolates`). `Runs.RunRefines` covers every such delete that does not take the
  counter or an open entry.
* A handle that is kept across a delete puts the entry back with its next write or size change (src/stores/dbfs/attr.c:52-76). The
  parents then stay live exactly when the path still has a live container as its parent and no child of its own that the record
  would orphan (`Parents.HandleStores`); `Parents.KeptHandleMakesOrphan` is a run that ends with an orphan.
* `mf_filler` gives FUSE each entry's own number as its offset (src/apps/fuse/mangoofuse.c:283), one below the number delivered. A
  call that resumes there, instead of at the number delivered, loses the stashed entry (`MangooFuse.ReportedOffsetLosesStash`).
* A directory call that fails with EIO has still moved on: if its entries are thrown away, a retry at the number delivered keeps
  the listing whole exactly when there was no stash and nothing had been accepted (`MangooFuse.FailureInSession`).
* The first entry created on a new store gets inode 1, the root's (`Runs.FirstEntrySharesRootInode`). Files
  are isolated from each other all the same, as long as streams are opened on data entries only (`Inodes.FilesAreIsolated`).

## Model

| member | source | states |
|---|---|---|
| CStrings.StrStr | src/stores/dbfs/dir.c:135 | the test `strstr(entry, locator) != entry` fails exactly when the locator is a prefix of the entry |
| CStrings.StrCmpIsLex | src/stores/dbfs/dir.c:16-21 | a compares below b if and only if it is a proper prefix of b or has the smaller byte where they first differ |
| CStrings.PrefixIsConvex | src/stores/dbfs/dir.c:16-21 | the strings with a given prefix form an interval of the strcmp order |
| Keys.CompareAntisymmetric | src/stores/dbfs/dir.c:40-75 | swapping the keys flips the sign, and 0 means equal logical keys |
| Keys.CompareTransitive | src/stores/dbfs/dir.c:40-75 | the order is transitive, strictly so if either step is strict |
| Keys.OrderIs | src/stores/dbfs/dir.c:16-53 | entries are in dictionary order of their paths, blocks ascend by inode and then by offset, both in if-and-only-if form |
| Keys.OrderLayout | src/stores/dbfs/dir.c:23-53 | entries lie between fsinfo and blocks; the keys between two blocks of an inode are that inode's blocks with offsets between |
| Keys.PrefixInterval | src/stores/dbfs/dir.c:135-139 | the entries below a prefix form one contiguous interval of keys with the prefix itself as least key |
| Blocks.MaskIsFloor | src/stores/dbfs/stream.c:35 | subtracting the bits under the mask 4095 rounds an offset down to a block boundary, for every offset |
| Blocks.TouchedIsInterval | src/stores/dbfs/stream.c:43-47 | the blocks a non-empty range reaches are the aligned offsets from its start rounded down to its end |
| Blocks.SplitWrite | src/stores/dbfs/stream.c:43-97 | writing in two calls equals writing once, block keys and bytes, for suitable contents of the fresh blocks |
| Blocks.SplitRead | src/stores/dbfs/stream.c:43-97 | reading in two calls gives the two halves of one read |
| Blocks.WriteFrame | src/stores/dbfs/stream.c:43-97 | after a write the range holds the data, every other byte that existed is unchanged, blocks appear exactly where the range reaches, no other key changes |
| Blocks.GarbageIsInvisible | src/stores/dbfs/stream.c:68 | the uncleared contents of fresh blocks show in no key, no written byte and no byte that existed before |
| Blocks.WriteThenRead | src/stores/dbfs/stream.c:43-97 | a range that was written reads back |
| Blocks.BytesAreStored | src/stores/dbfs/stream.c:35-92 | a written byte i is byte i % 4096 of the record stored under the block key i / 4096 * 4096 |
| Blocks.NewBlocksHoldGarbage | src/stores/dbfs/stream.c:67-70 | a fresh block holds what malloc returned wherever it was not written |
| Blocks.WriteRefinesFlat | src/stores/dbfs/stream.c:191-206 | on a file without holes a block write at or below the end is the slice replacement old[..off] + data + old[off+n..] and leaves no hole |
| Blocks.ShrinkIsPrefix | src/stores/dbfs/attr.c:285-300 | a smaller size shows a prefix of the same bytes |
| Stream.ReadPart | src/stores/dbfs/stream.c:51-76 | one lap of a read puts the stored bytes, or zeros for an absent block, at its place in the buffer; on a reliable map always |
| Stream.WritePart | src/stores/dbfs/stream.c:51-90 | one lap of a write is the write of its chunk, also into a block that was absent, or nothing when the get or put fails; on a reliable map it is the write |
| Stream.ReadWrite | src/stores/dbfs/stream.c:16-105 | the whole loop: a full or partial read or write of exactly the first count bytes, EIO exactly when count falls short, DB_NOTFOUND exactly when the last block read is absent, each block of the range visited once in ascending order, no integer wraps; on a reliable map every byte is moved |
| Stream.TruncateBlocks | src/stores/dbfs/stream.c:107-150 | for end != offset it returns at once and deletes nothing; for end == offset it comes back only through a failed delete, within any number of laps, and touches at most the block at offset; so on a reliable map not at all |
| Stream.TruncateBlocksWhileSize | stream.c~:159-202 | terminates having deleted exactly the blocks that meet the range, or those of the finished part with EIO; DB_NOTFOUND exactly when the last block was absent; on a reliable map the whole range is finished |
| Stream.TruncateKeepsPrefix | stream.c~:172-198 | shrinking with that loop keeps every byte below the new size if and only if the size is on a block boundary or in a hole |
| Stream.DelS | src/stores/dbfs/stream.c:216-223 | with a size above zero every block stays; with size zero it comes back only with EIO |
| Stream.DelSWhileSize | stream.c~:268-275 | no block below the size is left and no key of another inode or kind is touched |
| Stream.Read | src/stores/dbfs/stream.c:179-189 | clips to the cached size and reads; past the end it returns 0 with the caller's size unchanged |
| Stream.ReadIsSlice | src/stores/dbfs/stream.c:184-188 | without holes and I/O failures the result is the slice of the contents if and only if the offset is not past the end or nothing was asked for |
| Stream.Write | src/stores/dbfs/stream.c:191-206 | all blocks, then the cached size, then the record; a failed block write changes no size, a failed record leaves blocks and cached size new; on a reliable map it succeeds |
| Stream.SetSize | src/stores/dbfs/attr.c:285-300 | always returns, deletes no block, caches the size and stores the record; on a reliable map it succeeds |
| Attributes.DbfsHandle.constructor | src/stores/dbfs/fsinfo.c:76-96 | a new handle names its locator and store, holds its own entry's key in its buffer and has zeroed attributes |
| Attributes.CreateAttr | src/stores/dbfs/attr.c:16-50 | stores a new record with size 0, or fails with EINVAL and no effect; an existing entry is never overwritten; on a reliable map it succeeds exactly for an absent entry |
| Attributes.WriteAttr | src/stores/dbfs/attr.c:52-76 | stores the record under its path or fails with EINVAL and no effect; on a reliable map it succeeds |
| Attributes.ReadAttr | src/stores/dbfs/attr.c:79-109 | fetches the record; ENOENT only for an absent one; on a reliable map one of the two |
| Attributes.DelA | src/stores/dbfs/attr.c:348-373 | removes the record whose key the handle's buffer holds at that time, and nothing else; on a reliable map ENOENT exactly when there is none |
| Paths.EmittedPaths | src/stores/dbfs/dir.c:143-154 | the scan's string test selects the children of the locator and the siblings whose last name extends its own, nothing else |
| Paths.NameDeterminesChild | src/stores/dbfs/dir.c:143-156 | every child passes the test and its path is its parent's path followed by the emitted name |
| Directory.ListingIsExact | src/stores/dbfs/dir.c:108-159 | a fresh scan emits, in strictly ascending key order, one entry for each selected stored path and no other |
| Directory.ListingIsSorted | src/stores/dbfs/dir.c:16-21 | the paths of a listing are in dictionary order, and so are the names when no sibling extends the directory's name |
| Directory.ListsChildrenExactly | src/stores/dbfs/dir.c:135-157 | every stored child is listed; only children are, if and only if no sibling's last name extends the locator's |
| Directory.NamesAreDistinct | src/stores/dbfs/dir.c:149-156 | without such a sibling no name is listed twice |
| Directory.ScanEmits | src/stores/dbfs/dir.c:150-156 | moving the cursor onto a selected entry takes exactly that entry off what remains |
| Directory.ScanEnds | src/stores/dbfs/dir.c:121-140 | stopping at the first key that is not an entry with the prefix loses nothing |
| Directory.RootBranchAgrees | src/stores/dbfs/dir.c:128-137 | for canonical paths the root branch and the general branch with locator "/" select the same entries |
| Directory.ReadDir | src/stores/dbfs/dir.c:94-163 | the filler is fed a prefix of what remained; a refused entry is stashed and passed by the cursor, a failed move loses nothing, the end leaves nothing; the root flag makes no difference; on a reliable map no EIO |
| Directory.CursorSet | src/stores/dbfs/dir.c:179-222 | the cursor stands on the handle's own entry, ENOENT if there is none; on a reliable map no EIO |
| Directory.DOpen | src/stores/dbfs/dir.c:224-253 | opening a directory places a fresh cursor on its entry; on a reliable map exactly for a stored entry |
| Directory.SuccessorDecides | src/stores/dbfs/dir.c:268-302 | the next key alone tells whether any stored path, at any depth, extends the locator |
| Directory.DelD | src/stores/dbfs/dir.c:255-306 | success only when no stored path extends the locator, ENOTEMPTY only when some does, ENOENT only when the entry is absent; on a reliable map one of these three; the key buffer keeps the handle's own key exactly when there was no later key to move to, and otherwise holds what the move left |
| Directory.SiblingIsMistakenForChild | src/stores/dbfs/dir.c:135-157 | with "/a" and "/ab" stored, "/a" has no children but lists "b" and cannot be removed |
| Filler.DirSink.MfFiller | src/apps/fuse/mangoofuse.c:259-294 | an entry below the starting offset is counted only; an accepted one is counted and buffered; a refused one is stashed with its number and not counted |
| Filler.FedThen | src/apps/fuse/mangoofuse.c:281-293 | feeding two stretches of entries is feeding them as one |
| MangooFuse.OpenDir | src/apps/fuse/mangoofuse.c:296-315 | a new directory stream has delivered nothing and stands on its entry; on a reliable map opening succeeds exactly for a stored entry |
| MangooFuse.Readdir | src/apps/fuse/mangoofuse.c:317-347 | dots or stash first, then the store's scan from where the cursor stands; a full buffer is not an error; on a reliable map every call returns 0 |
| MangooFuse.FirstCall | src/apps/fuse/mangoofuse.c:326-331 | the first call delivers ".", ".." and a prefix of the whole listing and can be resumed if and only if the buffer takes both dot entries |
| MangooFuse.ResumedCall | src/apps/fuse/mangoofuse.c:332-341 | a resumed call loses and repeats nothing if and only if it resumes at the stashed entry's number with room for it, or, with no stash, not beyond what was counted or with nothing left to read |
| MangooFuse.FailedCall | src/apps/fuse/mangoofuse.c:332-346 | a call that fails with EIO has accepted and left to read exactly what was pending, unless it was to deliver a stash that its buffer refused, in which case not |
| MangooFuse.RetriedCall | src/apps/fuse/mangoofuse.c:259-294 | after a failed call whose entries are thrown away, a retry at the same number loses nothing if and only if there was no stash and the failed call had accepted nothing |
| MangooFuse.ExactlyOnce | src/apps/fuse/mangoofuse.c:317-347 | over any session, what was delivered, then the stash, then what remains is always ".", ".." and the store's listing in order; each call makes progress |
| MangooFuse.SessionCompletes | src/apps/fuse/mangoofuse.c:343-346 | after one call more than there are entries all are delivered, and further calls deliver nothing |
| MangooFuse.ChildrenDelivered | src/apps/fuse/mangoofuse.c:317-347 | a completed session has delivered every stored child of the directory |
| MangooFuse.ReportedOffsetLosesStash | src/apps/fuse/mangoofuse.c:281-289 | the offset reported with the last entry is one below the number delivered; a call that resumes there keeps the listing whole if and only if nothing is stashed |
| MangooFuse.FailureInSession | src/apps/fuse/mangoofuse.c:317-347 | the same at any point of a session, for the whole listing: when a failed call keeps it, and when its retry does |
| MangooFuse.SessionsExist | src/apps/fuse/mangoofuse.c:332-341 | the hypotheses of the session theorems can be met, with an entry that is refused, stashed and then delivered |
| MangooFuse.ListDirectory | src/apps/fuse/mangoofuse.c:296-347 | a reader on the heap that opens a directory and calls until nothing is delivered gets ".", ".." and the whole listing in order, for any buffers; on a reliable map exactly for a stored entry, otherwise ENOENT |
| ChangingStore.RemainingSplits | src/stores/dbfs/dir.c:108-159 | moving the cursor from one key to a later one splits the listing into the entries it passes and what remains from there, in that order |
| ChangingStore.ReadIsReceived | src/apps/fuse/mangoofuse.c:317-347 | over any session in which each call finds its own tree, what was received and then the stash is always ".", ".." and then what the calls read |
| ChangingStore.ReadsAscend | src/stores/dbfs/dir.c:108-159 | the keys read over such a session ascend strictly, so that none is read twice |
| ChangingStore.ReadKeysAre | src/stores/dbfs/dir.c:108-159 | a key was read if and only if it was stored in the tree of the call whose cursor passed it |
| ChangingStore.StableIsRead | src/stores/dbfs/dir.c:108-159 | an entry stored in every tree so far was read if and only if the cursor has reached it |
| ChangingStore.StableEntriesDelivered | src/apps/fuse/mangoofuse.c:317-347 | once a call has delivered nothing, each entry stored in every tree has been delivered exactly once, and whatever was delivered was stored under its key in the tree of the call that read it |
| ChangingStore.NamesDeliveredOnce | src/apps/fuse/mangoofuse.c:317-347 | if no tree holds a sibling that extends the directory's name, no name is delivered twice, dots aside |
| ChangingStore.SomeCallIsEmpty | src/apps/fuse/mangoofuse.c:343-346 | if at most n entries of the directory ever exist, one of the first n + 2 calls delivers nothing |
| ChangingStore.DeletedStashIsDelivered | src/apps/fuse/mangoofuse.c:332-341 | such sessions exist: an entry is refused, stashed, deleted, and delivered all the same |
| Dbfs.CrupdFsinfo | src/stores/dbfs/fsinfo.c:16-37 | stores the counter, only as a new record when creating; on a reliable map it fails exactly when a new record was asked for and there is one |
| Dbfs.FetchFsinfo | src/stores/dbfs/fsinfo.c:49-74 | returns the stored counter or EIO; on a reliable map the counter exactly when there is one |
| Dbfs.MkDbfs | src/stores/dbfs/mkdbfs.c:53-68 | a new store holds the root with mode 0644, inode 1 and size 0 and a counter of 1; neither record is overwritten; a failed call leaves nothing, or the root without a counter; on a reliable map it succeeds exactly when both records are absent |
| Dbfs.DbfsStore.Create | src/stores/dbfs/dbfs.c:17-49 | stores a record with the caller's kind and mode, the current number and size 0, unless there is one; uses up one number either way; on a reliable map it succeeds exactly for an absent entry |
| Dbfs.DbfsStore.Delete | src/stores/dbfs/dbfs.c:51-96 | which calls are refused and why, which record goes for any key left in the buffer, and what each outcome leaves in the tree; on a reliable map no EIO, so that the state decides the outcome |
| Dbfs.OwnEntryGoes | src/stores/dbfs/attr.c:353-359 | a successful delete removes the named entry and nothing else if and only if it is a data entry, there was no later key, or the key buffer was left alone |
| Dbfs.OwnEntryGoesInPlace | src/stores/dbfs/dir.c:77-92 | with the found key stored in place, a successful delete removes the named entry and nothing else if and only if it is a data entry or there is no later key; a container with a later key stays and that key's record goes |
| Dbfs.NextEntryGoesInPlace | src/stores/dbfs/dir.c:77-92 | with "/a" and "/b" stored and the found key put in place, deleting "/a" removes "/b" and leaves "/a" |
| Dbfs.FileBlockGoesInPlace | src/stores/dbfs/dir.c:77-92 | with "/a" written and the empty container "/z" last, deleting "/z" in place removes the first block of "/a" |
| Dbfs.DataDeleteReturns | src/stores/dbfs/dbfs.c:81-87 | read off the outcome that `Dbfs.DbfsStore.Delete` establishes: without I/O failure deleting a data entry comes back if and only if its size is above zero, and then leaves all its blocks in the tree |
| Dbfs.InitStore | src/stores/dbfs/dbfs.c:183-199 | a mount takes the stored counter and moves it on by 1000, or fails with no effect; on a reliable map it succeeds exactly when there is a counter |
| Dbfs.SOpen | src/stores/dbfs/stream.c:152-177 | opening a stream caches the stored record; on a reliable map it succeeds exactly for a stored entry |
| System.FreshRefines | src/stores/dbfs/mkdbfs.c:58-68 | the store made by mkdbfs is the empty file system |
| System.NewInodeIsBlank | src/stores/dbfs/dbfs.c:36-38 | no block belongs to the next number to be handed out |
| System.CreateStep | src/stores/dbfs/dbfs.c:17-49 | a create adds an empty node, or nothing, and keeps the invariant |
| System.LoseStep | src/stores/dbfs/attr.c:353-359 | the invariant holds after any delete that took one block of any file, a block of none, or an entry that is not open |
| System.DeleteStep | src/stores/dbfs/dbfs.c:51-96 | a delete takes the node it names, or the one record its key buffer was left with if that is not the counter's or an open entry's, or nothing but the first block of an empty file; what it may return follows the flat file system |
| System.WrittenTree | src/stores/dbfs/stream.c:33-35 | a write changes the bytes of its own file and no byte of any other |
| System.WriteFailed | src/stores/dbfs/stream.c:196-198 | a write cut short leaves the finished part's bytes in the file and no size changed |
| System.WriteDone | src/stores/dbfs/stream.c:200-205 | a write that reached its end moves the cached size on, and the stored one unless storing it failed |
| System.SetSizeStep | src/stores/dbfs/attr.c:285-300 | a size change keeps every written byte of the file |
| System.ReadStep | src/stores/dbfs/stream.c:179-189 | a read returns written bytes, zeros for blocks never written, and DB_NOTFOUND exactly when the last block was never written |
| FlatFs.DenseIsKept | src/stores/dbfs/stream.c:191-206 | writes at or below the end and shrinks, failed or not, never leave a hole |
| FlatFs.FlatLaws | src/stores/dbfs/stream.c:179-206 | on a file without holes each call acts as on a byte sequence: slice replacement, prefix, slice, or no change |
| Client.Caller.Mount | src/stores/dbfs/dbfs.c:144-205 | mounting is one step of the state machine; on a reliable map a step without fault |
| Client.Caller.Create | src/stores/dbfs/dbfs.c:17-49 | a create call on the heap is one step of the state machine; on a reliable map a step without fault |
| Client.Caller.Delete | src/stores/dbfs/dbfs.c:51-96 | a delete call is one step, also while its loop is still running; on a reliable map a step without fault |
| Client.Caller.Open | src/stores/dbfs/dbfs.c:98-123 | opening a stream is one step; on a reliable map a step without fault |
| Client.Caller.Write | src/stores/dbfs/stream.c:191-206 | a write through one handle is one step and leaves every other handle as it was; on a reliable map a step without fault |
| Client.Caller.Read | src/stores/dbfs/stream.c:179-189 | a read through a handle is one step that changes no state but the buffer; on a reliable map a step without fault |
| Client.Caller.SetSize | src/stores/dbfs/attr.c:285-300 | a size change through one handle is one step and leaves every other handle as it was; on a reliable map a step without fault |
| Inodes.InodesNeverReused | src/stores/dbfs/dbfs.c:36-38 | over every run with at most 1000 create calls for a mount and a counter that does not wrap, and no other rule, later entries have larger inodes than all earlier ones, deleted or not |
| Inodes.NewFileIsBlank | src/stores/dbfs/dbfs.c:37-38 | in such runs that open streams on data entries only, no block has the inode of an entry just created, although deletes leave blocks behind |
| Inodes.DeleteIsolates | src/stores/dbfs/attr.c:353-359 | a delete that does not name a file, with any key in its buffer, keeps the file's record and blocks if and only if the key it removes is not the file's entry nor one of its blocks |
| Inodes.FilesAreIsolated | src/stores/dbfs/stream.c:33-35 | in runs as for `NewFileIsBlank`, a call that does not name a file keeps its record and every byte, if and only if it is not a delete that removes a key of that file |
| Runs.RunRefines | src/stores/dbfs/dbfs.c:136-142 | at every point of every run the tree and the handles agree with the flat file system and each call returned only what it allows, for runs that keep `System.Rules`: at most 1000 creates for a mount and no counter wrap, one handle for a path and only on data entries, none kept across a delete, byte ranges below 2^63, and no delete that takes the counter or an open entry by the key in its buffer |
| Runs.FaultlessCalls | src/stores/dbfs/dbfs.c:136-142 | in every such run a call without fault returns what the flat state decides: which creates, opens and deletes succeed, with which error the others are refused, and that writes, reads and size changes are complete |
| Runs.RecordKept | src/stores/dbfs/attr.c:28-31 | a create stores the kind and mode it was given; no later call changes the kind, mode or inode of a stored record |
| FlatFs.ModesAreKept | src/stores/dbfs/attr.c:52-76 | no call allowed by the flat file system changes the kind or mode of a path that stays |
| Runs.RunsExist | src/stores/dbfs/dbfs.c:136-142 | the hypotheses of the run theorems can be met: a fresh store can be mounted, a file created, opened and written, within the rules |
| Runs.BlocksStayAligned | src/stores/dbfs/stream.c:35-47 | after any calls whatever, every block key is aligned (blocks have 4096 bytes by their type) |
| Runs.SizesStayBelow | src/stores/dbfs/stream.c:179-206 | after any calls that write and size below 2^63, every size in the tree and in a handle is below 2^63 |
| Runs.FirstMount | src/stores/dbfs/dbfs.c:187-194 | the first mount of a new store hands out 1 first and leaves the counter at 1001 |
| Runs.MountReserves | src/stores/dbfs/dbfs.c:187-194 | a mount hands out the stored number first and leaves the counter 1000 higher, while that is below 2^64 |
| Runs.BatchIsTight | src/stores/dbfs/dbfs.c:187-189 | after k create calls the next mount starts at a number already used if and only if k is above 1000 |
| Runs.CollidingFiles | src/stores/dbfs/dbfs.c:36-38 | with more than 1000 create calls on a mount, a file of the next mount shares its inode with a live one, and what is written to the one is read from the other |
| Runs.CollisionExists | src/stores/dbfs/dbfs.c:187-189 | such calls exist: 1000 creates that fail, one that succeeds, a remount and one more |
| Runs.FirstEntrySharesRootInode | src/stores/dbfs/mkdbfs.c:60-67 | the first entry of a new store gets the root's inode |
| Parents.RemovalKeepsClosed | src/stores/dbfs/attr.c:353-359 | when one record goes, every entry keeps a live parent if and only if it was not an entry with a child |
| Parents.ParentsLive | src/stores/dbfs/dbfs.c:73-79 | in every state of every run that creates under existing containers, keeps no handle across a delete, and whose deletes find no open entry and no entry with a child in their buffer, each entry but the root has a live container as its parent; no other rule |
| Parents.DescendantHasChild | src/stores/dbfs/dir.c:286-302 | where parents are live, anything stored below a directory, at any depth, implies a stored child of it |
| Parents.RefusalIsExact | src/stores/dbfs/dir.c:255-306 | in every state of such runs and for a call without fault, which every delete on a reliable map is, removing a container is refused with ENOTEMPTY if and only if it has a child or some stored path extends its last name, and succeeds if and only if neither is so and the key left in its buffer is that of a stored record (its own, if the buffer was left alone or there was no later key) |
| Parents.PathsAreCanonical | src/stores/dbfs/dbfs.c:17-49 | in every state of such runs all stored paths are canonical |
| Parents.DeleteKeepsParents | src/stores/dbfs/dbfs.c:51-96 | after any further delete in a state of such a run, of any path, with any key in its buffer, the parents are live if and only if it did not remove an entry with a child |
| Parents.InPlaceDelete | src/stores/dbfs/dir.c:77-92 | in a state of such a run and with the found key stored in place, a container with a later key stays, and the parents are live if and only if that key is not an entry with a child |
| Parents.OrphanIsMade | src/stores/dbfs/dir.c:77-92 | after creating "/a", "/b" and "/b/c", deleting "/a" in place removes "/b" and leaves "/b/c" without a parent |
| Parents.HandleStores | src/stores/dbfs/attr.c:52-76 | where parents are live, storing a size through a handle, its entry deleted or not, keeps them live if and only if its path has a live container as its parent and the handle is a container's or no stored entry is a child of the path |
| Parents.KeptHandleMakesOrphan | src/stores/dbfs/attr.c:52-76 | in a run whose only broken rule is the delete of an open path, a size change through the kept handle stores an entry without a parent |
| Runs.DenseRun | src/stores/dbfs/stream.c:191-206 | over a whole run a file written at or below its end and only shrunk never has a hole, as long as no delete of another path takes one of its blocks |
| Runs.WholeRunContents | src/stores/dbfs/stream.c:16-105 | while open, such a file's blocks are all stored and hold exactly its byte sequence |
| Runs.WholeRunLaws | src/stores/dbfs/stream.c:179-206 | each call of the run changes the bytes in the tree as the sequence laws say |
| Runs.RecordMatchesHandle | src/stores/dbfs/attr.c:285-300 | read off the steps that `Stream.Write` and `Stream.SetSize` establish: after a write or size change that succeeded the stored record is the handle's |

## Left out

- Berkeley DB itself: `Store.Db` is its contract, an ordered map whose operations may fail without effect; environments,
  transactions and page handling are foreign code. Its method bodies only show that the contract can be met.
- Buffer ownership, beyond the key that a delete finds in its buffer: a freed or moved buffer is taken to hold some key, and for
  `dbfs_readdir` only the root flag of resumed calls depends on it, which is arbitrary.
- The attributes in a directory handle after its cursor has moved onto a block: they are only read for the type of an entry.
- Memory: failed `malloc` calls, leaks and DBT flags. Only the uncleared contents of fresh blocks are modelled, as an arbitrary
  function of the offset.
- The loop body of `dbfs_readwrite` is split by direction into `Stream.ReadPart` and `Stream.WritePart`, so the block fetch that
  opens each lap is written twice.
- Runs.RunRefines: holds for callers who make at most 1000 create calls for a mount, open streams on data entries only, one for a
  path, close them before the path is deleted, and keep offsets and sizes below 2^63 and the counter below 2^64; and for deletes
  that do not take the counter or an open entry instead of their own. What such a delete leaves is said by
  `Parents.DeleteKeepsParents` and `Inodes.DeleteIsolates`. Parents and canonical paths are no part of it:
  see `Parents.ParentsLive`.
- Dbfs.OwnEntryGoes: one case of its condition is the key left in the buffer, which the model leaves open;
  `OwnEntryGoesInPlace` is the form that a caller can check.
- Runs.DenseRun: the file's callers are polite, and no delete of another path takes a block of it.
- Dbfs.DbfsStore.Delete: which key a moved or freed buffer holds is not determined; every key is allowed.
- MangooFuse.ExactlyOnce: concerns calls that return 0 on an unchanged store, resumed at the number of entries delivered so far;
  `ChangingStore` is about a store that changes between the calls, not during one,
  `ResumedCall` and `ReportedOffsetLosesStash` say what other offsets do, `FailedCall` and `RetriedCall` what failures do.
  Rewinding a used directory to offset 0 is not modelled.
- Growing a size can expose old bytes or contents of fresh blocks; nothing is claimed about bytes that were never written.
- The fsinfo record is written with the size of a pointer (src/stores/dbfs/fsinfo.c:30); pointers are taken to have eight bytes.
- Times, owners, mode changes, the file type bits that `mf_filler` derives from an entry's kind, and the simple
  getters of `attr.c`: one-line members.
- The rest of `mangoofuse.c` and the dispatch layer `src/lang/c/lib/mangoo.c`: glue.
- Threads, and several handles on one file: cached sizes can then overwrite each other.
