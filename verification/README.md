# turbolite: a verified model of its hard core

turbolite is a SQLite VFS that keeps databases compressed, in one local file or as page groups in
an object store. This project models four of its components and proves what they are meant to
guarantee.

1. **Locks** (`src/lib.rs`). The process-wide lock table, and the WAL-index range lock that takes
   it one slot at a time. `LockTable` is the table as a class whose operations are relations
   between tables. `WalLocks` is a transition system in which any number of connections interleave
   at every critical section. `FileWalIndex` is the lock call itself, with other connections'
   operations running before each of its critical sections; each section is shown to be a step of
   the transition system. `LockRestores` decides before a call whether its failure can lose a lock;
   `LockProgress` shows that a free range is granted.
2. **B-tree readers** (`src/btree_walker.rs`, `src/tiered/btree_peek.rs`). Two independent parsers
   of the SQLite file format. `SqliteFormat` states the format (varints, serial types, records, cells
   and pages, in literal bytes) on its own; `Integers`, `BtreePages`, `LeafPages`, `InteriorPages`,
   `BtreePeek` and `IndexLeaf` hold the parsers and their round trips; `BtreeWalker`, `WalkTheorems`
   and `DatabaseWalk` hold the walks and compare them with reachability by paths (`Graphs`).
   `StoredTrees` takes whole databases laid out by the format and shows what the walks return on them.
3. **Single-file database** (`src/local/`). `LocalFormat` and `LocalFile` are the file and its
   codec, `LocalBytes` its bytes position by position, `LocalHandle` the in-memory image with its dirty flag, proved a refinement of a plain
   byte file under writes, truncations, syncs, failed syncs, closes, crashes and reopens.
4. **Manifests on an object store** (`src/tiered/`). `Tiered` says which bytes a manifest gives
   each page, `PageMap` the same over the manifest's fields. `Materialize` builds the database file. `Compaction`, `CompactTree`,
   `CompactionTheorems`, `StaleOverrides`, `Compactions` and `CallMeaning` rewrite trees, which
   `DeadSpace` picks. `SharedGroups` and `SharedPages` treat trees that share groups, as
   `ImportedManifest` builds them. `Gc` collects garbage. `StoreReferences`
   and `StoreRuns` are whole runs with a crash after any PUT or DELETE; `StoreLeaks` shows that a
   finished call leaves no garbage. `StoreKeys` shows that object keys do not collide.

Code that updates state is a class or a loop proved against a specification; the theorems are about
the specification. Compression, encryption and the page-group encoders are values of a `Codec` or
`PageCodec` datatype, constrained only by the laws that decoding inverts encoding. I/O results, file
guards, nonces, schema rows and the page cache are inputs.

In seven places the code does less than one might hope. For the first six the exact condition is
proved in terms a caller can check beforehand, and each has a concrete input:

- A failed range lock does not restore what the connection held before. From every reachable state,
  every failing call restores the holds if and only if the connection holds none of the slots it is
  about to ask for (`LockRestores.FailureRestoresIffNothingHeld`; the run in
  `WalLocks.FailedUpgradeLosesTheLock` loses a lock).
- An image that is not a whole number of pages is persisted, and the file then cannot be opened;
  decoding succeeds exactly for aligned images (`LocalFile.PersistedFileRoundTrip`). A database with
  512-byte pages under the default page size is lost this way (`LocalHandle.SmallPageIsLost`).
- Compaction leaves override frames alone. A call keeps the meaning of a manifest whose trees own
  disjoint groups if and only if the old frames on the ids it will use are long enough for the pages
  packed under them and show no other bytes (`CallMeaning.CallKeepsMeaningIff`). One manifest stops
  materializing (`ManifestWitnesses.ShortFrameStopsMaterializing`), one shows other bytes
  (`ManifestWitnesses.OldFrameChangesBytes`).
- The importer packs small trees into shared groups (src/tiered/import.rs:104-175). A call keeps a
  page if and only if no tree of the call owns its group, or the first owner walked it and no later
  tree owns the id it is packed under (`SharedPages.CallKeepsPageIff`), and it deletes an object its
  own manifest names if and only if two of its trees will take one group id that no later tree owns
  (`SharedGroups.DeletesNamedKeyIffTakenTwice`). A database of six three-page tables is imported into
  a manifest that any threshold up to two thirds compacts so, losing the schema page
  (`ImportedManifest.ImportedManifestLosesObject`).
- The copy loops of `materialize` stop at the first page number past the page count rather than
  skipping it. A page keeps its slice if and only if its loop reaches it, and is zero otherwise
  (`Materialize.SimplePageMap`); a list as the importer builds it loses page 0 when the database is
  cut short (`ManifestWitnesses.EarlyStopZeroesPage`). In ascending lists nothing is lost
  (`Materialize.AscendingPageMap`).
- The walk follows the overflow chains of leaf cells only. On a database laid out by the format it
  returns all pages of a tree if and only if no key on an interior index page of the tree spills
  (`StoredTrees.WalkIsCompleteIff`); on the five-page index in `SpilledKeyImage.WalkMissesTheKey` it
  reports a page of the root's key as nobody's.
- A page that is both a tree node and an overflow page can hide the rest of its chain from the walk.
  Here only a sufficient condition for an exact walk is proved (`WalkTheorems.WalkIsExact`), with an
  image that shows it cannot be dropped (`OverlapImage.WalkMissesPageFour`); with overlaps the
  outcome depends on the order of the walk. Databases laid out by the format have no overlaps.

The two interior parsers differ on some malformed cells; they agree exactly when no cell with a
readable child pointer loses its key to the end of the page (`BtreePeek.InteriorParsersAgree`).

## Model

| member | source | states |
|---|---|---|
| `LockTable.InProcessLocks.TryLock` | src/lib.rs:235-281 | all or nothing: a shared request succeeds if and only if no byte of the range has another exclusive owner, an exclusive one if and only if in addition no other connection holds any of them shared; then exactly those bytes are granted, otherwise no slot of any path changes |
| `LockTable.InProcessLocks.Unlock` | src/lib.rs:283-295 | releases the caller's own holds on the range and nothing else |
| `LockTable.InProcessLocks.UnlockAll` | src/lib.rs:297-307 | releases the caller's own holds on every byte of the path and nothing else |
| `LockTable.GrantedExactly` | src/lib.rs:256-279 | a grant, in the slots' own fields: the caller joins the shared set, or becomes the only holder; nothing else changes |
| `LockTable.ReleasedExactly` | src/lib.rs:283-295 | a release, in the slots' own fields: the caller leaves the shared set and the exclusive owner is cleared only if it is the caller |
| `LockTable.StepKeepsSoundness` | src/lib.rs:235-307 | every operation keeps "an exclusive owner is alone on its byte" and leaves what other connections hold unchanged |
| `LockTable.ExclusiveIsAlone` | src/lib.rs:256-265 | in a sound table a second connection holds nothing on an exclusively owned byte |
| `LockTable.EveryHistoryIsSound` | src/lib.rs:235-307 | every table reachable from the empty one by any operations of any connections is sound |
| `WalLocks.EveryRunKeepsInv` | src/lib.rs:521-620 | the system invariant (per connection: what each slot of a running call holds and which guards are live) is kept by every interleaving of critical sections |
| `WalLocks.ExclusiveRangeIsOwned` | src/lib.rs:525-620 | under every interleaving, when an exclusive range lock returns true the caller owns every slot and no other connection holds any of them, shared or exclusive |
| `WalLocks.SharedRangeIsHeld` | src/lib.rs:525-620 | a granted shared range is held and guarded, and nobody else owns any of it exclusively |
| `WalLocks.FailedCallGainsNothing` | src/lib.rs:545-607 | false or an error leaves the caller no slot and no stronger mode it did not have before |
| `LockRestores.FailureRestoresIffNothingHeld` | src/lib.rs:545-607 | from every reachable state with the caller ready: all failing calls for a range, under all behaviour of other connections and guards, restore the caller's holds if and only if it holds no slot of the range now |
| `LockRestores.AfterFailure` | src/lib.rs:545-607 | after a failing call each slot below the one it reached is given up and every other slot is held as it was when the caller was last ready |
| `LockRestores.FailingCall` | src/lib.rs:565-588 | such a call exists from every reachable state: the others finish and close, every slot is granted, the first guard would block |
| `WalLocks.FailedUpgradeLosesTheLock` | src/lib.rs:581-588 | a concrete run: a connection holding a slot shared asks for it exclusively, the file guard would block, and the connection ends with no hold at all |
| `WalLocks.HeldSlotsAreGuarded` | src/lib.rs:529-607 | at every return each slot held in the table has a live file guard |
| `LockProgress.FreeRangeIsGranted` | src/lib.rs:525-620 | from every reachable state with the caller ready and no other connection in its way (for a shared range: no other exclusive owner), a run exists in which only the caller moves, its lock returns true, and the others keep what they hold |
| `LockProgress.TwoReadersShare` | src/lib.rs:256-279 | a run from the empty system at whose end two connections hold one slot shared |
| `FileWalIndex.WalIndex.Lock` | src/lib.rs:525-620 | with other connections operating before every critical section, the call ends in a returned state of the transition system; true means all guards were taken, and for an exclusive range sole ownership; an error comes only from the lock file or a guard; without interference it returns true if and only if the range is free and every guard is granted |
| `FileWalIndex.WalIndex.TakeTableLocks` | src/lib.rs:545-563 | phase 1 stops early only at a slot that is incompatible at that moment; without interference it reaches the end if and only if the range is free |
| `FileWalIndex.WalIndex.TakeGuards` | src/lib.rs:565-607 | phase 2 reports would-block and error exactly as some guard did, and keeps the invariant |
| `FileWalIndex.WalIndex.GiveUp` | src/lib.rs:549-552 | rollback ends in the failed return state |
| `FileWalIndex.WalIndex.ReleaseRange` | src/lib.rs:530-536 | unlocking a range ends in the successful return state |
| `FileWalIndex.WalIndex.ReturnedIsReady` | src/lib.rs:521-620 | after any return the next call may begin |
| `FileWalIndex.Interfere` | src/lib.rs:235-307 | no sequence of other connections' operations changes what this connection holds |
| `Integers.ReadVarintWalker` | src/btree_walker.rs:517-539 | the loop computes the varint prefix value, total on truncated input |
| `Integers.ReadVarintPeek` | src/tiered/btree_peek.rs:263-276 | the loop computes the varint at an offset, refusing truncated input |
| `Integers.WalkerInvertsEncoding` | src/btree_walker.rs:517-539 | every 64-bit value reads back from its 1-to-9-byte encoding, whatever follows |
| `Integers.PeekInvertsEncoding` | src/tiered/btree_peek.rs:263-276 | the same for the other reader, at any offset |
| `Integers.PeekAgreesWithWalker` | src/tiered/btree_peek.rs:263-276 | when peek succeeds both readers give the same value and length; it fails exactly when fewer than nine bytes are left and all continue |
| `Integers.ReadColumnInt` | src/btree_walker.rs:576-601 | for every serial type the wrapping shift loop and sign extension give the big-endian two's-complement value |
| `Integers.ReadRecordInt` | src/tiered/btree_peek.rs:294-318 | the same value from the other loop, so the two integer readers agree |
| `BtreePeek.PeekSerialSize` | src/tiered/btree_peek.rs:278-292 | the table of sizes is the file format's content size |
| `BtreePages.ExtractInteriorChildren` | src/btree_walker.rs:195-240 | rightmost child, then the in-bounds cell children in order |
| `BtreePages.ExtractLeafOverflowPages` | src/btree_walker.rs:244-325 | the loop computes the list the round trip below is about, on any bytes |
| `LeafPages.CellOverflowReadBack` | src/btree_walker.rs:281-321 | a cell stored by section 1.6 of the SQLite file format (length, rowid for tables, local part, page number) reads as its first overflow page if it spills, and as nothing otherwise |
| `LeafPages.LeafOverflowsRoundTrip` | src/btree_walker.rs:244-325 | on every table or index leaf laid out in bytes by section 1.6 (type byte 0x0D or 0x0A, count, pointers, cells), payloads of any length and cells at any offsets, exactly the first overflow pages of the spilling cells come back, in order |
| `InteriorPages.InteriorChildrenRoundTrip` | src/btree_walker.rs:195-240 | on every table or index interior page laid out in bytes by section 1.6, the rightmost child and then the cells' children come back in order |
| `InteriorPages.TableInteriorRoundTrip` | src/tiered/btree_peek.rs:129-164 | on every laid-out table-interior page all children come back with the signed 64-bit keys that were stored, none malformed and none left out |
| `BtreeWalker.WalkBtree` | src/btree_walker.rs:106-191 | terminates on every page image and computes the walk that the theorems below characterize, on any bytes and on laid-out databases |
| `BtreeWalker.EnqueueChildren` | src/btree_walker.rs:136-144 | queues each child once |
| `BtreeWalker.FollowOneChain` | src/btree_walker.rs:150-179 | follows one overflow chain, cycles included |
| `WalkTheorems.WalkIsSound` | src/btree_walker.rs:106-191 | on every page image the result is strictly ascending, readable, and every page is a node or an in-range overflow page of the tree |
| `WalkTheorems.WalkIsExact` | src/btree_walker.rs:106-191 | if no page is both a node and an overflow page, the result is exactly the readable pages reachable by child pointers and in-range leaf overflow chains |
| `WalkTheorems.OverlapHidesChain` | src/btree_walker.rs:150-179 | in every tree where a child of the root is also the head of an overflow chain of its sibling, the next page of that chain is left out |
| `OverlapImage.WalkMissesPageFour` | src/btree_walker.rs:150-179 | such an image of whole 512-byte pages: page 4 lies on an overflow chain and the walk leaves it out |
| `StoredTrees.StoredTreeIsWalked` | src/btree_walker.rs:106-191 | in every database laid out in bytes by sections 1.6 and 1.7 of the SQLite file format, the walk from the root of a stored tree returns, ascending, exactly the tree's pages by stored child pointers and the stored overflow chains of its spilling table and index rows |
| `StoredTrees.WalkIsCompleteIff` | src/btree_walker.rs:130-184 | the walk returns every page of a stored tree, key chains included, if and only if no key on an interior index page of the tree is longer than fits |
| `SpilledKeyImage.WalkMissesTheKey` | src/btree_walker.rs:130-145 | a laid-out index of 512-byte pages whose root key spills: the walk returns the three tree pages and not the page that holds the rest of the key |
| `StoredTrees.SchemaLeavesAre` | src/btree_walker.rs:387-445 | on every stored table the leaf search finds exactly the leaves of the tree |
| `StoredTrees.OwnedPagesAre` | src/btree_walker.rs:46-103 | with the schema's trees stored, a page is owned if and only if it is a node or a row's overflow page of the tree at page 0 or at a page some row names |
| `DatabaseWalk.WalkAllBtrees` | src/btree_walker.rs:46-103 | a tree for 0-based root r exists if and only if r is 0 or some row names page r + 1; it holds the walk from r and the type and name of the last such row (the schema table's own for page 0 if none); unowned pages are, in ascending order, exactly the pages below the page count in no tree |
| `DatabaseWalk.TreesAre` | src/btree_walker.rs:54-89 | the same for every way of walking: which roots have a tree, and which row describes it |
| `DatabaseWalk.PagesArePartitioned` | src/btree_walker.rs:46-103 | with disjoint trees and nothing readable past the page count, owned and unowned pages add up to the page count |
| `DatabaseWalk.CollectLeafPages` | src/btree_walker.rs:387-399 | terminates on cyclic images; collects, once each, exactly the readable table leaves reachable through table-interior pages |
| `DatabaseWalk.CollectLeafPagesInner` | src/btree_walker.rs:401-445 | the recursion visits exactly what is reachable from its page and not yet visited |
| `BtreePeek.ParseTableInteriorCells` | src/tiered/btree_peek.rs:129-164 | well-formed cells in order, malformed ones counted, stop at the end of the pointer array |
| `BtreePeek.InteriorParsersAgree` | src/tiered/btree_peek.rs:129-164 | same rightmost child and stopping cell; peek's children are an in-order subsequence of the walker's, equal if and only if no key is cut off |
| `BtreePeek.ParseIndexLeafCellRowid` | src/tiered/btree_peek.rs:166-224 | one cell: overflowed, malformed, or its rowid and first-column integer |
| `IndexLeaf.ParseIndexLeafRowids` | src/tiered/btree_peek.rs:39-85 | the loop with its cap, counters and early stop, which the next three theorems characterize |
| `IndexLeaf.EveryCellIsCounted` | src/tiered/btree_peek.rs:39-85 | on any bytes every cell up to the stop is counted once, as read, overflowed or malformed; the scan stops early exactly when cells are left, and only at the cap or the end of the page |
| `IndexLeaf.RecordReadBack` | src/tiered/btree_peek.rs:188-223 | a stored record of any columns ending in an integer yields that integer and the first column's integer or none |
| `IndexLeaf.IndexLeafRoundTrip` | src/tiered/btree_peek.rs:39-85 | on every index leaf laid out in bytes by sections 1.6 and 2.1 of the SQLite file format, cells in any order, spilling by the format's own limit and usable size: the rowids and first-column integers of the cells that do not spill come back in order, the spilling ones are counted, up to the cell that reaches the cap |
| `IndexLeaf.LocalLeafRoundTrip` | src/tiered/btree_peek.rs:39-85 | if no cell spills, exactly the first `cap` rowids and first-column integers come back |
| `LocalFormat.EncodeHeader` | src/local/file_format.rs:65-75 | filling the buffer field by field gives the stored header |
| `LocalFormat.HeaderRoundTrip` | src/local/file_format.rs:64-118 | a header reads back exactly when its page size is from 512 to 65536 and its directory offset at least 64 |
| `LocalFormat.PageCodec.PageRoundTrip` | src/local/file_format.rs:147-216 | a page reads back exactly when it is a whole page, raw or compressed, with or without a key; its blob is at most one tag byte and the cipher overhead longer |
| `LocalFormat.EncodeDirectory` | src/local/file_format.rs:284-292 | entries are laid out one after another |
| `LocalFormat.DecodeDirectory` | src/local/file_format.rs:294-312 | refuses exactly the directories too short for their count |
| `LocalFormat.DirectoryRoundTrip` | src/local/file_format.rs:284-312 | decoding inverts encoding |
| `LocalFile.EncodeChunks` | src/local/mod.rs:495-504 | the chunk loop emits each chunk's blob and its extent |
| `LocalFile.EncodeFile` | src/local/mod.rs:494-517 | header, blobs and directory of an image |
| `LocalFile.DecodeLocalFile` | src/local/mod.rs:556-621 | total on every byte string: no index leaves the file and no sum leaves 64 bits |
| `LocalFile.AcceptedFilesAreWellFormed` | src/local/mod.rs:556-621 | anything accepted has its directory in the exact tail, every extent in the data region, and an image of exactly page count times page size bytes |
| `LocalFile.ExtentsTile` | src/local/mod.rs:494-517 | persisted extents tile the data region without gap or overlap |
| `LocalFile.FlattenLength` | src/local/file_format.rs:203-216 | every persisted blob has at least one byte and at most a page, a tag byte and the cipher overhead |
| `LocalFile.PersistedFileRoundTrip` | src/local/mod.rs:490-522 | decoding a persisted file returns the image and page size if and only if the image is a whole number of pages, for every legal page size, codec and nonces |
| `LocalBytes.PersistedFileIs` | src/local/mod.rs:494-517 | the whole file in literal bytes: magic, version, flags, sizes and offsets at their places in little-endian, reserved bytes zero, and page i, tagged 0 or 1 and compressed only if shorter, where the i-th 12-byte directory entry says |
| `LocalBytes.HeaderAcceptedIff` | src/local/file_format.rs:77-118 | any 64 bytes are accepted as a header if and only if magic, version, page size and directory offset are right |
| `LocalBytes.TagsAre` | src/local/file_format.rs:158-200 | a tag other than 0 and 1 is refused, a raw page is the blob without its tag |
| `LocalHandle.MainHandle.Open` | src/local/mod.rs:447-485 | fails exactly when the lock file is taken, an existing file cannot be read, or its bytes do not decode; a missing or empty file opens as an empty image |
| `LocalHandle.MainHandle.ReadExactAt` | src/local/mod.rs:670-685 | fills what the image has; succeeds exactly when the whole buffer lies inside it |
| `LocalHandle.MainHandle.WriteAllAt` | src/local/mod.rs:689-732 | is the write step of the handle machine: the bytes land at the offset, a gap is zero-filled, the handle is dirty |
| `LocalHandle.MainHandle.SetLength` | src/local/mod.rs:741-753 | is the truncate step of the handle machine: cut or zero-extended, the handle is dirty |
| `LocalHandle.MainHandle.Persist` | src/local/mod.rs:490-522 | is the sync step: a failed write leaves the file and the dirty flag alone; a file too long to build ends the process with the old file in place |
| `LocalHandle.MainHandle.Drop` | src/local/mod.rs:525-539 | is the close step: unsynced edits are flushed, a failed flush is ignored |
| `LocalHandle.StepRefines` | src/local/mod.rs:447-539 | every operation of the handle is the same operation of a plain byte file without pages, codec or dirty flag |
| `LocalHandle.EveryRunRefines` | src/local/mod.rs:447-754 | every run of opens, writes, truncations, syncs, failed syncs, closes and crashes refines the plain file |
| `LocalHandle.LiveImageIsPlainFile` | src/local/mod.rs:670-754 | after any run the live image is the last-write-wins, zero-extended file |
| `LocalHandle.CleanMeansSaved` | src/local/mod.rs:490-522 | a clean handle's image is what the disk decodes to, exactly when it is whole pages |
| `LocalHandle.ReopenAfterCrash` | src/local/mod.rs:624-650 | a reopen after a crash at any point yields the image of the last completed persist |
| `LocalHandle.SmallPageIsLost` | src/local/mod.rs:66-75 | a handle of the default page size takes a 512-byte page, syncs it, is clean, and leaves a file that every later open refuses |
| `StoreKeys.RenderIsInjective` | src/tiered/keys.rs:10-30 | distinct keys (kind, group, frame, version) are distinct object names |
| `StoreKeys.KnownKeys` | src/tiered/keys.rs:10-30 | object names written out, one of each kind |
| `Tiered.ContentDependsOnReferences` | src/tiered/bench.rs:775-939 | what a manifest materializes to depends only on the objects it names |
| `PageMap.StridedPlace` | src/tiered/manifest.rs:404-429 | in a positional manifest page p sits at position p % pages_per_group of group p / pages_per_group, if that group has a key, and nowhere else |
| `PageMap.ListedPlace` | src/tiered/manifest.rs:423-438 | in a B-tree-aware manifest a page sits where `group_pages` lists it under a group with a key |
| `PageMap.ContributionIs` | src/tiered/bench.rs:820-921 | the bytes of a position: its slice of the decoded override frame it falls in, or else of the decoded group object, if the copy loop reaches it |
| `PageMap.RestorableIs` | src/tiered/bench.rs:801-909 | over the manifest's fields: when every object is there and decodes and every override frame is long enough |
| `Materialize.StageBase` | src/tiered/bench.rs:850-860 | the last staged write of each listed page is its base page, up to the early stop |
| `Materialize.StageFrame` | src/tiered/bench.rs:911-921 | one override frame replaces exactly the pages it covers |
| `Materialize.StageOverrides` | src/tiered/bench.rs:863-923 | whatever order the override map is iterated in, the same pages are replaced; fails exactly when some frame is missing, undecodable or short |
| `Materialize.StageGroup` | src/tiered/bench.rs:801-924 | one group: override over base for every position |
| `Materialize.WriteFile` | src/tiered/bench.rs:934-939 | each page of the file is its last staged write or zeros |
| `Materialize.AscendingReachesAll` | src/tiered/bench.rs:850-853 | in an ascending list the early stop skips exactly the pages past the page count |
| `Materialize.SimplePageMap` | src/tiered/bench.rs:850-921 | with each page in one place, in lists of any order: a page is its override frame's slice if its frame is overridden and its base slice otherwise, if its copy loop reaches it, and zeros if not |
| `Materialize.AscendingPageMap` | src/tiered/bench.rs:850-921 | in an ascending list every page of the database is its simple slice |
| `ManifestWitnesses.EarlyStopZeroesPage` | src/tiered/bench.rs:850-853 | a group listed as 17, 18, 0 in a database of ten pages: page 0 is stored and reads as zeros |
| `Materialize.MaterializeManifestToFile` | src/tiered/bench.rs:752-950 | succeeds exactly when every base and override object is there and decodes, leaves the output untouched otherwise, and with each page in one place writes exactly the page map; over the manifest's fields: page p of a positional manifest is slice p % pages_per_group of group p / pages_per_group or of its override frame, page p of a listed group is the slice of its position, and every other page is zero |
| `Compaction.CompactBtree` | src/tiered/compact.rs:138-200 | fails exactly for a root the walk or the manifest does not have, and otherwise returns the groups the next row describes |
| `Compaction.NewGroupsAreDense` | src/tiered/compact.rs:162-186 | the live pages of the tree's groups, ascending and each once, fill groups of pages_per_group one after another, and nothing else is in them |
| `DeadSpace.AnalyzeDeadSpace` | src/tiered/compact.rs:60-134 | picks, in order, exactly the trees with at least threshold times as many dead pages as pages; a tree without pages only for a threshold of at most zero |
| `DeadSpace.DeadAndLiveAddUp` | src/tiered/compact.rs:86-101 | every page of a tree's groups is dead or collected for packing |
| `DeadSpace.CompactedTreeIsClean` | src/tiered/compact.rs:60-134 | a compacted tree has no dead pages left, so no positive threshold picks it again |
| `Compaction.KeptPages` | src/tiered/compact.rs:162-181 | the packed pages are exactly the tree's live pages, strictly ascending |
| `Compaction.ChunkPlaceIsUnique` | src/tiered/compact.rs:183-186 | no page is packed twice |
| `Compaction.ChunkCovers` | src/tiered/compact.rs:183-186 | every kept page is packed |
| `CompactTree.AssignGroups` | src/tiered/bench.rs:595-659 | assigned ids are pairwise distinct, reuse the tree's own in order and then are fresh by a fixed rule with growing gaps; keys, pages, uploads and replaced keys follow |
| `CompactTree.RetireGroups` | src/tiered/bench.rs:661-675 | exactly the tree's ids that no new group took lose key and pages, and their keys are replaced |
| `CompactTree.PatchTables` | src/tiered/bench.rs:685-690 | frame tables change for the new groups only |
| `CompactTree.CompactGroups` | src/tiered/bench.rs:591-690 | the whole tree: new groups under next-version keys, the rest of the manifest as it was |
| `StaleOverrides.MaterializesIffOverridesFit` | src/tiered/bench.rs:591-690 | without any condition on overrides: the compacted database materializes if and only if each old frame on an id the tree will use is present, decodes and is long enough for the pages packed under that id |
| `StaleOverrides.PackedPageKeepsBytesIff` | src/tiered/bench.rs:657-690 | a packed page keeps its bytes if and only if no old frame covers its new position or the frame holds those bytes there |
| `StaleOverrides.MeaningKeptIffOverridesHarmless` | src/tiered/bench.rs:591-698 | compacting a tree keeps the meaning of the manifest if and only if the old frames are harmless, said before the call |
| `StaleOverrides.NoOverridesAreHarmless` | src/tiered/bench.rs:657-690 | ids without override frames are enough |
| `ManifestWitnesses.ShortFrameStopsMaterializing` | src/tiered/bench.rs:893-909 | a sane two-page manifest that cannot be materialized after its tree is compacted |
| `ManifestWitnesses.OldFrameChangesBytes` | src/tiered/bench.rs:911-921 | a sane three-page manifest that materializes after compaction with other bytes on a live page |
| `CompactionSteps.StepExists` | src/tiered/bench.rs:591-690 | every tree that lists its groups once has such a step, so the statements about steps are not empty |
| `CompactionTheorems.ListedAfter` | src/tiered/bench.rs:591-690 | exactly the tree's live pages and the pages of groups it does not own stay listed |
| `CompactionTheorems.UniqueAfter` | src/tiered/bench.rs:591-690 | each page still sits in one place |
| `StaleOverrides.TreeCompactionKeepsBytes` | src/tiered/bench.rs:591-698 | with harmless overrides the result is sane again, and every page it lists was listed before with the same bytes |
| `CallMeaning.CallKeepsMeaningIff` | src/tiered/bench.rs:549-698 | a whole call over any number of trees with disjoint groups keeps the meaning of the manifest if and only if, before it, the old frames on the ids it will use fit and agree |
| `CallMeaning.MaterializesIffCallFits` | src/tiered/bench.rs:549-698 | after a call the database materializes if and only if those frames fit |
| `CallMeaning.CallKeepsMeaning` | src/tiered/bench.rs:549-698 | an eligible call keeps every listed page's bytes, and all key bookkeeping |
| `Compactions.CallKeepsAlive` | src/tiered/bench.rs:549-698 | a call whose walks miss no live page drops none |
| `Compactions.Compact` | src/tiered/bench.rs:549-698 | the candidate loop compacts exactly the candidates the walk and the manifest know, in order, as such a chain of tree steps; the version goes up by one and the change counter is the one given |
| `Gc.Backend.Collect` | src/tiered/bench.rs:953-989 | keeps exactly the manifest object and the objects that its group keys, interior and index chunk keys and override keys hold, and returns the number deleted |
| `Gc.LiveKeys` | src/tiered/bench.rs:958-975 | the live set is the manifest key and the keys the four fields hold |
| `Gc.CollectionKeepsMeaning` | src/tiered/bench.rs:953-989 | materializing the stored manifest gives the same before and after |
| `Gc.CollectionIsIdempotent` | src/tiered/bench.rs:953-989 | a second collection deletes nothing |
| `StoreReferences.EveryRunKeepsReferences` | src/tiered/bench.rs:549-715 | in every run of compactions and collections with a crash after any PUT or DELETE, every key the stored manifest names exists, whatever the cache, encoders and overrides, given disjoint trees |
| `Compactions.CallKeepsBooks` | src/tiered/bench.rs:591-690 | over a call, untouched groups keep their keys, touched ones get a next-version key or none, and the replaced keys are exactly the old keys of touched groups |
| `StoreRuns.EveryRunIsCrashSafe` | src/tiered/bench.rs:549-715 | in every such run the stored manifest materializes, its pages have the bytes they had at the start, and no page is lost that the walks did not miss |
| `StoreRuns.StepKeepsInv` | src/tiered/storage.rs:180-211 | each PUT, manifest PUT, DELETE and crash keeps that |
| `StoreRuns.ReplacedAreUnreferenced` | src/tiered/bench.rs:700-713 | no key a call deletes is named by the manifest it published |
| `StoreLeaks.FinishedCallLeavesNoGarbage` | src/tiered/bench.rs:549-713 | the keys a call deletes are exactly the group keys its manifest dropped; every key the new manifest names exists, and a store without orphans has none afterwards |
| `StoreRuns.UploadsAreUnreferenced` | src/tiered/keys.rs:10-30 | uploads go under keys the current manifest cannot name, so a partial upload is invisible |
| `SharedGroups.SharedPageStaysIffWalked` | src/tiered/import.rs:104-175 | a page in a group the compacted tree shares stays listed if and only if the walk counted it as that tree's |
| `SharedPages.CallKeepsPageIff` | src/tiered/bench.rs:556-698 | over a whole call with disjoint walks: a page stays listed if and only if no tree of the call owns its group, or the first owner walked it and no later tree owns the id it is packed under |
| `SharedGroups.CallExists` | src/tiered/bench.rs:556-698 | every such call can be made, whatever its trees share |
| `SharedGroups.DeletesNamedKeyIffTakenTwice` | src/tiered/bench.rs:591-709 | a call over any number of trees with disjoint walks deletes a key the manifest it publishes names if and only if, before the call, two of the trees are due to take one of their ids and no later tree owns it |
| `SharedGroups.IdsAsForeseen` | src/tiered/bench.rs:595-601 | which ids a tree takes follows from the first manifest: its live pages in groups no earlier tree owns decide how many |
| `ImportedManifest.ImportIs` | src/tiered/import.rs:104-175 | six three-page tables and the schema page, sixteen pages to a group, are packed so that the last table straddles the two groups |
| `ImportedManifest.DeadShares` | src/tiered/compact.rs:86-115 | the dead shares of the imported trees: 2 of 3, 13 of 16 and 16 of 19 |
| `ImportedManifest.AllArePicked` | src/tiered/compact.rs:60-134 | every threshold up to two thirds picks all seven trees |
| `ImportedManifest.ImportedManifestLosesObject` | src/tiered/bench.rs:556-713 | that call, from any cache and codec, deletes an object the new manifest names and drops the schema page |

## Left out

- File guards are opaque results: what fcntl does when an old guard of a slot is dropped after a new one was taken is not modelled; nor are mmap regions and the `-shm` file.
- `release_locks_for` and `clear_all_caches`: they discard lock state on purpose and are not steps of the lock runs.
- Slot numbers are unbounded here; the source's are one byte.
- zstd, AES-GCM and AES-CTR internals, the decompression caps beyond the page size, compression errors and builds without the features.
- Walker page sizes below 512: the file format's minimum is assumed; in much smaller pages the spill arithmetic underflows.
- WalkTheorems.WalkIsExact: the disjoint-roles condition is sufficient; an overlap that hides nothing also gives an exact walk.
- WalkTheorems.OverlapHidesChain: one family of overlaps; which pages an overlap hides depends on the order in which the walk meets them.
- LeafPages.LeafOverflowsRoundTrip: pages with reserved bytes are not covered, since the reader takes the page size as the usable size; the same holds for StoredTrees.
- DatabaseWalk.WalkAllBtrees: the schema rows are inputs; `parse_sqlite_master` and `parse_master_cell` are not modelled.
- `parse_table_leaf_rowids` would add an easier variant of the index-leaf parser.
- LocalHandle.MainHandle.WriteAllAt: offset plus length is not bounded by 64 bits, since an image that long cannot exist.
- The rename in `atomic_write` is one atomic step; fsync and directory sync are not modelled, and of the sibling lock file only whether it was taken.
- Materialize.MaterializeManifestToFile: I/O errors after the output file was created are not modelled.
- CompactTree.CompactGroups: says nothing of a positional manifest or of a tree that lists a group twice; neither is produced for B-tree-aware manifests.
- Compactions.Compact: the picked trees, the walked pages, the cache and the change counter are inputs (`DeadSpace` does the picking); the storage calls between trees are steps of `StoreRuns`.
- DeadSpace.AnalyzeDeadSpace: ratios are exact reals, not rounded `f64`; picked trees are identified by root, where the source uses their unique names.
- StoreRuns.EveryRunIsCrashSafe: asks that the cache agrees with the store and that the override frames on the ids each call will use are harmless in the exact sense of CallMeaning; EveryRunKeepsReferences needs neither.
- Garbage collection during a running compaction: nothing in the code serializes the two, and the model runs them one after the other.
- A manifest PUT that lands but reports an error is treated as a crash followed by a reopen.
- Batching of 50 objects per storage call: uploads and deletes go one at a time in any order.
- The manifest compare-and-swap, cursor chain and cache-epoch protocols, cache eviction and statistics, the C shim, loadable extension, command line, HTTP client and language packages.
