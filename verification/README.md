# Pinax storage engine: a Dafny model

Pinax keeps a durable `map<i64, Row>` in one file. Four layers make it up, and
each is modelled here in the form it has in the code:

* a byte-level page layout: slotted leaf and interior pages edited in place,
  overflow chains and a row codec (`Codec`, `Page`, `Slotted`, `PageModel`,
  `Nodes`, `Builder`, `RowCodec`, `OverflowChains`);
* a pager over one file with two ping-pong meta slots (`Disk`, `PagerModel`);
* a write-back LRU buffer pool (`Pool`);
* a copy-on-write B+tree (`Tree`, `TreeOps`, `Walks`, `RowMap`, `Mutate`,
  `LeafOps`, `CopyPath`, `TreeRead`, `TreeWrite`).

`Recovery`, `Room`, `SplitBound` and `Runs` hold the statements about the whole
engine.

## How the layers meet

Nothing is abstracted away between the bytes and the map. `PageModel.DecodePage`
says what a page's bytes stand for. The pool's ghost field `view` is the uncached
page map: the last bytes put under every id. Caching, eviction and flushing leave
it alone, up to the eight checksum bytes write-back fills in (`Page.SameBody`).
`Tree.TreeOk` says which decoded page maps are search trees, `Tree.Rows` lists
their rows in key order, `RowMap.MapOf` turns the list into the plain map.
`get`, `scan`, `insert`, `update` and `delete` are methods on a real pool and
their contracts speak of that map.

`File` records every disk state it goes through: the bytes readers see, the bytes
known durable, and the positions written since the last sync. `Disk.CrashImage`
says what a power cut in such a state may leave: any bytes at all at unsynced
positions, so any subset of unsynced writes, torn or not. The one assumption is
that a torn meta slot is its old self, its new self, or fails to verify or decode.
`Recovery.Shows` says that `open` picks an engine's transaction in an image and
finds every page of it. `Recovery.Moves`, which every operation promises whatever
its outcome, says that each state passed through shows the transaction before or
after it, and each state from the commit on only the one after. `Runs` composes
the contracts over any number of calls, power cuts and process deaths, and its
`Session` runs calls on a pool to show that executions are such runs.

## Where the code falls short of the plain claim

That a successful insert or update has exactly the effect of the map operation is
false of the code. `TreeWrite.StoreStep` says for every input when it is true: if
and only if the row is admitted (`Room.Admits`), a condition on the committed state,
the key and the row.

* **Leaf splits count cells, not bytes**, and `insert_cell_at` only assumes room.
  `Room.StoreFate` tells, before the call, the four things that may become of a
  cell: it goes into its leaf, it splits the leaf into halves that fit, a half
  overruns its own pointer array, or building the halves aborts. In the third case
  the call succeeds and what it commits is no tree; in the fourth it fails and
  nothing is committed. `SplitBound.UnfitInsert` is an input of the third kind: at
  page size 4096, a third row of 3069 bytes beside two of 984.
  `SplitBound.RatioAdmits` rules the last two out by a bound on row sizes.
* **The payload length is clamped to `u32`, not rejected.** A stored row can be read
  back exactly when its encoding is at most `u32::MAX` bytes
  (`OverflowChains.CellKeepsRowIff`), and no tree holds a longer one
  (`OverflowChains.SoundShort`). `OverflowChains.OverlongRow` is a row the encoder
  accepts beyond it.
* **Between the meta write and its sync** a process that dies leaves a file that
  opens to the new transaction, while a power cut may still take it back
  (`Recovery.DeadProcess`). In every other state what is opened is durable.
* **At page size 65536** the content area starts at 65527, one byte below what the
  comment on `max_interior_entries` says it matches. The threshold is exact all the
  same, for all five sizes (`Builder.InteriorCapacity`).
* **Separators are non-decreasing, not increasing, and leaves may be empty**,
  because removing a cell never gives its bytes back. `Tree.TreeOk` allows both.

## Choices of the model

* The 64-bit hash is a parameter; nothing depends on which function it is.
* The build modelled is one with overflow checks, the default for development
  builds. There the code aborts where its integer arithmetic would overflow (page
  ids, transaction ids, `u16` page arithmetic); the model returns
  `ArithmeticOverflow`, and the contracts say when that can happen. Nothing has been
  committed then. The release profile sets no such checks, and there the same
  arithmetic wraps.
* TEXT is a byte sequence that is well-formed UTF-8, REAL a 64-bit pattern that is
  not a NaN.
* A method whose contract rules out an error has no branch for it: the page-type
  check on descent, for example, cannot fail in a tree.
* Ghost parameters such as `h`, `los`, `his` and `at` carry the height of the tree,
  the key ranges on the path and an ancestor's node; they are not part of the code.

## Model

| member | source | states |
|---|---|---|
| TreeWrite.Insert | crates/pinax/src/btree/mod.rs:73-126 | if it succeeds, the key was absent, and what is then stored is a tree of the old map with the pair in if and only if the row is admitted, no other stored row being touched; if a half overran, it is no tree; the new root is the newest page, the ids taken are exactly those of the overflow chain, the copied path and its splits, and the height grows exactly when the root splits; it fails with the commit unchanged, `KeyAlreadyExists` exactly for a present key, else exactly for an unencodable row, used-up ids or halves that cannot be built; a crash at any point, admitted or not, shows the transaction before or after, once it returned only the one after |
| TreeWrite.Update | crates/pinax/src/btree/mod.rs:227-263 | the same, pages and height included, for replacing a present key, `KeyNotFound` exactly for an absent one |
| TreeWrite.Delete | crates/pinax/src/btree/mod.rs:270-310 | without any premise: returns the stored row and removes exactly that key, taking one page id for each level and keeping the height, or fails with the commit unchanged, `KeyNotFound` exactly for an absent key; crash safe in the same way |
| Room.PlainStore | crates/pinax/src/btree/mod.rs:128-143 | a store whose cell has room in its leaf keeps the height and takes one page id a level besides its overflow chain |
| TreeRead.FileIsExact | crates/pinax/src/pager.rs:287-290 | once a commit has made the newest page the root, the file ends exactly where that page does, at 8192 bytes and one page size for every id from 2 on, if it was no longer when opened |
| TreeRead.Get | crates/pinax/src/btree/mod.rs:196-219 | returns the row the stored map has under the key or none, never an error, under any cache state; commits nothing and takes no page id |
| TreeRead.Scan | crates/pinax/src/btree/mod.rs:315-322 | returns every stored pair in strictly ascending key order, never an error; commits nothing and takes no page id |
| RowMap.MapDetermines | crates/pinax/src/btree/mod.rs:312-322 | two ascending row sequences with the same map have the same listing, so `scan` is a function of the map |
| Runs.RunRefinesIff | crates/pinax/src/btree/mod.rs:73-344 | a run of calls leaves after each call a tree of the map those calls make of the first one if and only if its successful stores were admitted; and then every answer is the one that map gives |
| Runs.RunIsCrashSafe | crates/pinax/src/buffer_pool.rs:138-158 | a crash in any disk state of a run, its stores admitted or not, shows one of the transactions between its calls, and after the last call only the one it left |
| Runs.SizedRunRefines | crates/pinax/src/btree/mod.rs:151-174 | with all row costs in the size ratio every run refines the map, no premise left |
| Runs.Session | crates/pinax/src/database.rs:100-149 | executing any calls on a pool yields such a run, from the pool's first state to its last, that refines the map |
| Runs.AfterPowerCut | crates/pinax/src/pager.rs:212-272 | reopening what a power cut in any disk state of a call left resumes the transaction before the call or the one after, once it committed only the one after |
| Runs.AfterProcessDeath | crates/pinax/src/pager.rs:212-272 | reopening the file as a dead process left it in any state of a call, unsynced writes and all, resumes one of the two as well, provided the meta slots are durable |
| Runs.LifeRefines | crates/pinax/src/database.rs:87-150 | over any number of calls, crashes and reopens, the stored map is the effect of all calls that returned, in order, and of some of those cut short |
| Recovery.OpenEngine | crates/pinax/src/database.rs:87-92 | for every file, the one slot choice or error that `Disk.OpenAnswers` leaves; and where the file is quiet for a transaction, synced or not, a valid engine that resumes exactly that one |
| Recovery.DeadProcess | crates/pinax/src/pager.rs:212-272 | in every state an operation passes through, `open` reads a whole transaction, and it is one to resume if and only if what the meta slots say is durable |
| Recovery.CreateEngine | crates/pinax/src/database.rs:55-63 | creating a file gives a valid engine with no rows in a durable file of two meta slots, transaction 0, safe against a crash from then on |
| Recovery.StepShows | crates/pinax/src/pager.rs:349-373 | every kind of disk state met on the way from one commit to the next shows the old transaction or the new one |
| Recovery.ShownRows | crates/pinax/src/pager.rs:246-261 | an image that shows a transaction holds exactly its rows for a reader of the image alone, although checksum bytes may differ |
| Walks.WalkDescends | crates/pinax/src/btree/mutate.rs:39-56 | along any walk through children, cells and chains from a root the page ids strictly decrease, so no page is met twice and every page met exists |
| Tree.TreeExtends | crates/pinax/src/buffer_pool.rs:99-101 | a root still denotes the same rows, with the same invariant, after any pages are added |
| Tree.HeightUnique | crates/pinax/src/btree/mod.rs:312-314 | all leaves of a tree are at one depth |
| TreeOps.AroundLeaf | crates/pinax/src/btree/layout.rs:254-262 | the rows of a tree are those before, in and after the leaf a key is routed to, and the ones before are below, the ones after above, the key |
| TreeOps.ReplaceChild | crates/pinax/src/btree/mutate.rs:119-129 | repointing one child to a copy keeps the search-tree invariant and puts the copy's rows in the child's place |
| TreeOps.SplitChild | crates/pinax/src/btree/mutate.rs:93-110 | splicing in two children and a separator keeps ordered separators, distinct children, ranges and row order |
| TreeOps.HalveNode | crates/pinax/src/btree/mutate.rs:166-195 | halving a node around a promoted key gives two nodes of at least one separator each, which together hold the same children and rows |
| Mutate.DescendPath | crates/pinax/src/btree/mutate.rs:39-56 | the path runs from the root to the leaf responsible for the key, each page a tree over a range that contains it |
| Mutate.PositionIs | crates/pinax/src/btree/mutate.rs:101-105 | with distinct children the lookup of the old child hits the intended slot |
| Mutate.SplitInteriorEntries | crates/pinax/src/btree/mutate.rs:166-195 | the two pages put hold the entries below and above the middle key, which is promoted and kept in neither; fails only when page ids run out |
| Mutate.ApplyResultToInterior | crates/pinax/src/btree/mutate.rs:112-158 | a right result for the child gives a right result for the ancestor, with the siblings' rows around the child's, and a spoiled one a spoiled one; it splits if and only if the child did and the ancestor is full; fails only when page ids run out |
| Mutate.FinalizeRoot | crates/pinax/src/btree/mutate.rs:197-212 | the new root is a tree of the whole key range with the result's rows, one level higher after a split; over a spoiled result it is no tree |
| Mutate.CollapseRootIfNeeded | crates/pinax/src/btree/mutate.rs:219-228 | a root page without separators gives way to its only child, any other stays; in a tree the second always applies (`RootHasSeparator`) |
| CopyPath.CopyToRoot | crates/pinax/src/btree/mod.rs:113-124 | a right result for the leaf becomes a tree of the whole key range in which only that leaf's rows are replaced, a spoiled one no tree; one new page for each ancestor, two for a full one below which there was a split, and a new root only over a split one |
| LeafOps.LeafInsertOrSplit | crates/pinax/src/btree/mod.rs:128-143 | edits in place, taking one page id, if and only if the leaf has room, and splits, taking two, otherwise; by the cell's fate: the leaf's rows with the new row in at its index, in one leaf or two; or two built halves of which one is no leaf; or an error, only if a half cannot be built or ids ran out |
| LeafOps.SplitFateShows | crates/pinax/src/btree/mod.rs:161-174 | the fate of a split, decided by cell lengths alone, is what building its halves shows |
| SplitBound.SplitPutKeepsIff | crates/pinax/src/btree/mod.rs:161-192 | the two pages a split puts are leaves that hold its cells if and only if both halves fit by size |
| SplitBound.UnfitInsert | crates/pinax/src/btree/mod.rs:161-192 | on a root leaf of two rows of 984 bytes at page size 4096, a third row of 3069 bytes overruns a half and is not admitted |
| SplitBound.UnfitOutcome | crates/pinax/src/btree/mod.rs:73-126 | and inserting it succeeds, unless ids run out, and destroys the tree |
| SplitBound.RatioSplitFits | crates/pinax/src/btree/mod.rs:161-174 | if costs lie in `[m, n]` with `n * (C + 2m) <= 2 * m * C` both halves always fit |
| SplitBound.OneCellSplitFits | crates/pinax/src/page.rs:156-164 | a split of at most two cells always fits, because no cell keeps more than `max_local` bytes |
| SplitBound.RatioAdmits | crates/pinax/src/btree/mod.rs:128-143 | if all stored rows and the new one are in the ratio, storing the new one is admitted, whichever leaf it goes to and whatever garbage the leaf holds |
| OverflowChains.ChunksJoin | crates/pinax/src/btree/overflow.rs:28-44 | the chunks concatenate to the tail, all but the last are full, and there are exactly `ceil(len / cap)` of them |
| OverflowChains.WriteOverflowChain | crates/pinax/src/btree/overflow.rs:28-68 | the chain put, one fresh page per chunk, reads back as the tail, every link to a smaller id; an empty tail puts nothing |
| OverflowChains.ReadOverflowChain | crates/pinax/src/btree/overflow.rs:70-89 | returns exactly the first `total_len` bytes of a chain |
| OverflowChains.CellKeepsRowIff | crates/pinax/src/btree/overflow.rs:93-132 | the cell built from a row, spilled or not, stands for that key and row if and only if the encoding is at most `u32::MAX` bytes |
| OverflowChains.SoundShort | crates/pinax/src/btree/overflow.rs:130 | no tree, however it came about, holds a row whose encoding is longer than that |
| RowCodec.RowRoundTrip | crates/pinax/src/row.rs:70-98 | decoding an encoded row followed by any bytes gives the row |
| RowCodec.ValueRoundTrip | crates/pinax/src/row.rs:120-155 | each value decodes from its place and advances by exactly its encoded length |
| RowCodec.DecodesIff | crates/pinax/src/row.rs:163-213 | a value decodes at a place if and only if the bytes there are its encoding, the second byte of a true boolean aside |
| RowCodec.DecodeErrors | crates/pinax/src/row.rs:163-213 | `InvalidRowEncoding` arises exactly for an unknown tag, a NaN pattern or a text that is not UTF-8; every other failure is a buffer that ends too soon |
| RowCodec.RowDecodesIff | crates/pinax/src/row.rs:87-98 | a buffer decodes to a row if and only if it holds the number of values and then, one after the other, bytes that stand for them |
| RowCodec.NaNIff | crates/pinax/src/row.rs:163-213 | the REAL patterns ruled out are those with all exponent bits set and a non-zero fraction (section 3.4 of IEEE 754-2008) |
| RowCodec.ValidUtf8Iff | crates/pinax/src/row.rs:163-213 | TEXT is exactly the concatenations of UTF-8 forms of Unicode scalar values (section 3 of RFC 3629) |
| RowCodec.RowFormat | crates/pinax/src/row.rs:120-161 | the stored bytes of one value of every type, and of a row of two |
| RowCodec.EncodeFailsExactly | crates/pinax/src/row.rs:101-109 | encoding fails exactly for a row, text or blob whose length exceeds `u32`, always with the same error |
| Pool.BufferPool.Get | crates/pinax/src/buffer_pool.rs:85-94 | a page put or stored reads as last put, checksum bytes aside, cached or not, and becomes the most recently used; an uncached page is answered as `Disk.ReadAnswers` says, and an error caches nothing |
| Pool.BufferPool.PutNew | crates/pinax/src/buffer_pool.rs:99-101 | the page map changes at this id only, whatever is evicted to make room |
| Pool.BufferPool.MakeRoom | crates/pinax/src/buffer_pool.rs:103-109 | evicts down to one below capacity and only when full; the empty-queue error is unreachable |
| Pool.BufferPool.EvictOne | crates/pinax/src/buffer_pool.rs:123-136 | the victim has the oldest last use of all cached pages; the logical page map is unchanged; the error arises exactly for an empty queue |
| Pool.WriteStaysQuiet | crates/pinax/src/pager.rs:321-329 | writing any page at or above the committed page count, even early, touches neither the meta region nor a committed page |
| Pool.BufferPool.Commit | crates/pinax/src/buffer_pool.rs:155-158 | on success the committed pages are the whole page map, each sealed in its place in a file no longer than they need, and every state since the last commit recovers to the old or the new transaction; it fails only when transaction ids run out |
| Disk.MetaRoundTrip | crates/pinax/src/pager.rs:79-120 | an encoded meta slot verifies and decodes to its content |
| Disk.MetaFormat | crates/pinax/src/pager.rs:99-120 | and besides it is sealed, says version 1, and is zero up to the trailer |
| Disk.DecodesMetaIff | crates/pinax/src/pager.rs:79-97 | a slot decodes if and only if it holds the magic and, big-endian at their offsets, an allowed page size, the transaction id, the root and the page count |
| PagerModel.Pager.Open | crates/pinax/src/pager.rs:212-272 | for every file: the slot taken is sealed by its checksum and decodes, and no such slot has a higher transaction id, slot 0 winning a tie; `NoValidMetaPage` exactly if there is none, `FileTooSmall` exactly below 8192 bytes; one answer is left for every file (`Disk.OneAnswer`) |
| PagerModel.Pager.ReadDataPage | crates/pinax/src/pager.rs:298-311 | the bytes at the page's place if they are there and their checksum is right, `Corruption` exactly if it is wrong, `Io` exactly if the file ends before |
| Disk.FileOffsets | crates/pinax/src/pager.rs:287-290 | page 2 begins at byte 8192 and every page where the one before it ends |
| Disk.QuietRecovers | crates/pinax/src/pager.rs:212-272 | a crash before the meta write, whatever data writes are torn, opens to the committed transaction with all its pages |
| Disk.SwitchingRecovers | crates/pinax/src/pager.rs:349-373 | a crash during the meta write opens to the old transaction or the new one, each with all its pages |
| PagerModel.Pager.Commit | crates/pinax/src/pager.rs:349-373 | writes only the inactive slot, flips to it, and passes only through safe states |
| Slotted.InsertedRefines | crates/pinax/src/btree/layout.rs:64-86 | on a page with room the in-place edit is sequence insert; live cells stay disjoint above the pointers and unchanged |
| Slotted.RoomNeeded | crates/pinax/src/btree/layout.rs:56-86 | the in-place edit leaves a well-formed page if and only if cell and pointer fit between the pointer array and the content start |
| Slotted.RemovedRefines | crates/pinax/src/btree/layout.rs:88-104 | the in-place edit is sequence remove, and no cell bytes are given back |
| PageModel.SameBodySamePage | crates/pinax/src/page.rs:204-208 | stamping a checksum never changes what a page stands for |
| PageModel.LeafFormat | crates/pinax/src/btree/layout.rs:114-172 | where in a leaf page count, content start, pointers and the fields of every cell are |
| PageModel.InteriorFormat | crates/pinax/src/btree/layout.rs:196-236 | the same for an interior page: rightmost child, pointers, keys and children |
| PageModel.OverflowFormat | crates/pinax/src/btree/overflow.rs:47-67 | an overflow page is type, next page and data up to the trailer |
| Nodes.LeafSearch | crates/pinax/src/btree/layout.rs:176-194 | finds the key, or the index that separates smaller from larger keys |
| Nodes.InteriorFindChildForKey | crates/pinax/src/btree/layout.rs:254-262 | takes the child of the first separator above the key, else the rightmost |
| Builder.BuiltLeafOutcome | crates/pinax/src/btree/mod.rs:161-174 | building aborts exactly when the cells alone exceed the content area; a page built from cells that do not fit is neither leaf nor interior page |
| Builder.BuiltInteriorRefines | crates/pinax/src/btree/mutate.rs:73-87 | the built interior page holds exactly the keys and children |
| Builder.InteriorCapacity | crates/pinax/src/btree/mutate.rs:160-164 | for all five page sizes, entries fit a page if and only if there are at most `max_interior_entries` |
| Page.StampVerifies | crates/pinax/src/page.rs:204-232 | a stamped buffer verifies, differs in the trailer only, and stamping again changes nothing |
| Page.VerifiesIff | crates/pinax/src/page.rs:222-232 | a buffer verifies if and only if its last eight bytes are, big-endian, the hash of all the others |

## Left out

- Paths, `create_new`, file errors and I/O failures inside a running session: only crashes and successful steps are modelled.
- A crash while the file is being created, before its first sync.
- What a reopened process may still lose if the one before it died between the meta write and its sync: `Recovery.DeadProcess` names the state, and no engine is promised for it.
- The release build, in which page ids, transaction ids and `u16` page arithmetic wrap instead of aborting.
- XxHash3-64 itself: a page is reported corrupt exactly when its bytes and its checksum disagree, so corruption that keeps the hash passes.
- Calls made after a store that was not admitted has destroyed the tree: `get` and the others require a tree.
- Whether readers could still make sense of an overrun page by chance, where the bytes overwritten happen to equal those written: such a page is no leaf here.
- Error locations and texts; the schema, identifier and type checks of the `lexis` crate, of which only the shape of `Value` is used.
- The empty `hypomnema` and `phylaxis` crates.
- Space: there is no freelist and no merging, so pages a transaction no longer uses stay in the file; nothing is claimed about how much of it they are.
- Helper methods without a counterpart of their own in the code split long ones: `Pool.BufferPool.Forget`, `MakeRoom`, `PushBack`, `WriteBack`, `CleanVictim`, `FlushOne` and `SyncAll` are steps of `insert_cached`, `evict_one` and `flush_all_dirty`, `SwitchSlot` and `CreateFile` of the pager's `commit` and `create`, `PutFresh` and `PutBoth` are `allocate_page_id` followed by `put_new`, `InsertCopy`, `UpdateCopy` and `DeleteCopy` are the operations up to their commit, `CopyAncestors` and `CopyLevel` the loop of the path copy and its body.
