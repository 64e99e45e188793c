# A verified model of ChunkEdge

ChunkEdge is a Minecraft server framework written in Rust. This project models five of its parts in
Dafny and proves what they are for. To verify everything: `dafny verify dfyconfig.toml`.

**The Anvil region store** (`Bytes`, `Sectors`, `RegionModel`, `RegionFormat`, `RegionLaws`, `RegionMap`,
`RegionStore`, `RegionReopen`, `RegionRuns`, `RegionStale`, `RegionDamage`, `FolderModel`, `FolderLaws`,
`FolderRecency`, `StoreTheorems`, `StoreMemory`, `Region`, `RegionFolder`). A region file holds 1024 chunks behind two header sectors; a growable bitmap and a
first-fit search hand out sectors, large chunks go to side files, and a folder keeps open regions in
a bounded least-recently-used cache. Files are byte sequences. `RegionModel` and `FolderModel` give
each operation as a function on states; the classes in `Region` and `RegionFolder` update arrays,
bitmap, directory and cache in place and are proved equal to those functions. The main theorem,
`StoreTheorems.StoreIsMap`, says that over every run the folder answers as a finite map from chunk
position to chunk would, whatever its cache holds. Below it lie the allocator invariant over every
run, the arithmetic bound that keeps sector starts within 24 bits, byte-level framing of writes, and
the equivalence of an open region with the region reopened from its file. `RegionFormat` says, byte by
byte and for any file, what reading makes of a region file, what writing leaves in it, and which sets are
refused. `FolderRecency` says which regions are kept open. `RegionStale` follows, over
every run, what sets that are refused leave behind in the header, `RegionDamage` what that can destroy, and
`StoreMemory` what the program answers meanwhile.

**Command scopes, command trees and dispatch** (`ScopeGraph`, `GraphSearch`, `ScopeRegistry`,
`CommandGraph`, `CommandTree`, `CommandDispatch`, `DispatchEnds`, `CallTree`, `CommandParser`,
`ParserLaws`, `ParserArguments`, `CommandBuilder`). Scopes form a dotted hierarchy with links; a depth-first search decides
which scope grants which. A worklist copies the part of a cyclic command graph that a client may use,
and a backtracking parser walks the same graph on input. The copy is proved to be exactly the permitted
part. The parser is proved to end exactly where no chain of calls comes back to itself, to execute
exactly the nodes that some parse leads to, once for each way through the graph, and every node it
executes to be in the copy. The arguments and modifiers it reports are described by the texts that the hops
take from the input.

**The chunk loader** (`LoaderProtocol`, `LoaderFairness`, `AnvilLevel`). The main tick and a worker thread
talk through two queues. Their steps form a relation, and the invariant is proved over every
interleaving: no request is lost, doubled or answered twice, and every fair run without new requests
answers all of them. The class `AnvilLevel` performs the steps in place.

**Click packets** (`Items`, `Clicks`, `ClickActions`, `ClickAcceptance`, `ClickLaws`, `ClickKinds`,
`ClickMakes`, `ClickPredictions`, `ClickExamples`, `ClickValidator`, `ClickHandler`). Validation in seven modes and the application of an accepted click to
two inventories, the cursor and the dropped items. Exactly which packets are accepted, and with which
stacks, is `ClickAcceptance.VerdictIff`; that what a client does with a click is accepted and carried out is
`ClickActions`. What a packet does to the number of items, of all
kinds together and of each kind, is known from the packet and the state before; so is which slots, and
whether the cursor, end up as the client expects. The clicks after which they do not, or which lose or
duplicate items, are characterised, each with an instance.

**Codecs and packed data** (`Words`, `Leb128`, `LebReading`, `LebFormat`, `VarLong`, `VarLongVector`,
`VarInt`, `Palette`, `PaletteWords`, `PaletteFormat`, `TrackedData`). The portable, the vectorised and the bit-spreading encoders of
variable-length integers are all proved to write unsigned LEB128 (section 7.6 of DWARF Version 5),
and decoding to invert them; `LebFormat` says in plain numbers what the bytes are worth and which bytes are
refused. Reading a paletted section inverts packing it, `PaletteFormat` gives the layout of sections as a
table, and the cache of tracked
data behaves as a map.

## Where the code keeps less than it promises

- A set that fails (the codec fails, or the chunk is too large and such chunks are to be skipped) has
  already dropped the old entry from memory, while the file still holds it. Memory and file agree
  after a set exactly when it succeeded or the position was empty: `RegionReopen.SetInStepIff`, and
  through the cache `StoreTheorems.EvictionInvisibleIff`. `StoreIsMap` is about runs in which no set
  fails at a position that holds a chunk; `RegionRuns.EveryRun` is about all runs. While nothing is
  evicted, runs with such sets are answered as by a map in which a failed set removes its position:
  `StoreMemory.RefusalsForget`.
- After such a failed set the freed sectors can be given to another position. After any run, header and
  memory agree exactly when every set that failed at a stored position was later made good there
  (`RegionStale.SyncedAfterRunIff`), and reopening is sound exactly when the header's entries are apart
  (`ReopenSoundIff`), which a successful set keeps exactly when it takes no sectors that a stale entry
  still claims (`SetKeepsApartIff`). Once two entries share a sector, deleting one of them frees it under
  the other (`RegionDamage.SharedFrees`). Where a record in the region file starts where a stale entry
  starts and takes no more sectors than that claims, the reopened stale position reads the new chunk
  (`ReusedSectors`). `RefusedSetDamages` is such a run, with any codec and any chunks of fitting sizes, for
  example with a refused chunk that is too large; going on from it, `RefusedSetLoses` deletes the first
  position, stores a third, and the second position's chunk is lost.
- Dispatch can go on for ever. It ends exactly when no permitted chain of calls comes back to a call it
  made before (`DispatchEnds.EndsIff`); coming back takes a cycle of edges that take nothing from the
  input (`LoopIsIdle`). A literal redirected to itself is accepted by the builder and loops on its own
  name: `CommandBuilder.DispatchCanLoop`. On built graphs with non-empty literals and parsers that take
  something, dispatch ends whenever no cycle consists of redirects alone: `RedirectsDecide`.
- The command tree shows the kind of the first edge between two nodes, while dispatch goes by the
  latest one. On graphs made by the builder the two differ exactly for a pair joined by both a child
  and a redirect edge: `CommandBuilder.KindsDifferIff`, with an instance in
  `CommandBuilder.KindsCanDiffer`.
- Items are compared by their total and not by kind, so an accepted click can turn one kind into
  another. When a packet keeps a kind is `ClickKinds.KindKeptIff`; for a click on one slot, exactly when
  slot and cursor hold one kind between them, or stay as they are, or trade places
  (`ClickKeepsKindsIff`); and where only one kind is involved, when it keeps the total
  (`OneKindKeepsIff`). `ClickExamples.RightClickTradesKinds` turns 64 dirt into 64 diamonds.
- An accepted double click can lose items, and so does an applied creative click with items on the
  cursor: `ClickLaws.HandleConserves`, with instances in `ClickExamples.DoubleClickLoses` and
  `CreativeClickLoses`.
- A packet may name one slot twice; the sum then counts the slot twice and the server once. What the
  total then changes by is `ClickLaws.HandleConservesIff`, and `ClickExamples.SlotNamedTwice` makes two
  items of one.
- Slots and cursor of an accepted click can end up other than the client expects. The exceptions are all
  in `ClickPredictions.SlotsAsExpected`, `OthersUntouched` and `CursorAsExpected`, each an equivalence:
  a double click keeps the kinds of its slots, not those the client names; a drop counts items on the
  cursor as if they were in the slot, leaves the cursor as it is, and empties its slot also when the
  packet lists no change (`ClickExamples.DropUnsaid`); a right click outside the window drops the whole
  cursor where the client drops one item (`ClickExamples.OutsideDropsAll`); a click on the margin keeps
  the cursor's kind; and a creative click changes no slot and clears the cursor.
- With no inventory open, the inclusive range check lets one slot index pass that names no slot
  (`Clicks.RangeCheckIff`), and looking at that slot panics. `ClickAcceptance.PanicsIff` says on
  which packets, and the click results are about all others; `ClickExamples.DropPastEnd` is accepted and
  then panics.
- A palette with an entry for every cell of its section is refused, though it could be read back:
  `Palette.ReadsBack`.

## Model

| member | source | states |
|---|---|---|
| Bytes.Be32 | crates/chunkedge_anvil/src/lib.rs:380-393 | four big-endian bytes that read back as the word |
| Bytes.WriteAtMeans | crates/chunkedge_anvil/src/lib.rs:602-626 | a positioned write byte by byte: data in its range, everything else as before, holes filled with zeros |
| Bytes.WriteAtConcat | crates/chunkedge_anvil/src/lib.rs:602-611 | the consecutive writes of length, compression number and payload are one write of the record |
| Bytes.WriteAtFrame | crates/chunkedge_anvil/src/lib.rs:602-626 | a write leaves every slice it does not overlap as it was |
| Sectors.FirstFitMeans | crates/chunkedge_anvil/src/lib.rs:700-729 | the specified start is the least one whose sectors are all free, past-the-end counting as free |
| Sectors.FindFreeSectors | crates/chunkedge_anvil/src/lib.rs:700-725 | the gap-skipping search loop ends and returns that least start |
| Sectors.ReserveSectors | crates/chunkedge_anvil/src/lib.rs:685-698 | truncating and extending the bitmap sets exactly the reserved sectors and loses no used bit |
| Sectors.FirstFitIgnoresTrailing | crates/chunkedge_anvil/src/lib.rs:700-729 | the answer does not depend on free bits at the end of the bitmap |
| RegionModel.CompressionFromNumber | crates/chunkedge_anvil/src/lib.rs:65-72 | a number names a compression exactly when it is that compression's number |
| RegionModel.ChunkIdxInverse | crates/chunkedge_anvil/src/lib.rs:645-665 | within a region, table index and chunk position determine each other, negative coordinates included |
| RegionFormat.RegionIs | crates/chunkedge_anvil/src/lib.rs:157-174 | a region file is for 32 by 32 chunk positions, counted from multiples of 32, negative coordinates included |
| RegionModel.Unpack | crates/chunkedge_anvil/src/lib.rs:328-343 | packing a location into a word and unpacking it are inverse both ways |
| RegionLaws.ShadowedSize | crates/chunkedge_anvil/src/lib.rs:700-729 | the starts that n live ranges can make a search pass over number at most 509 n |
| RegionLaws.PassedOver | crates/chunkedge_anvil/src/lib.rs:700-729 | each start that first fit passes over is passed over because of a live range at most 254 sectors ahead |
| RegionLaws.StartBound | crates/chunkedge_anvil/src/lib.rs:573-616 | with an entry vacant, first fit starts between 2 and 520709, whatever was deleted before |
| RegionLaws.ForgetKeeps | crates/chunkedge_anvil/src/lib.rs:503-536 | dropping an entry keeps ranges disjoint and the bitmap exactly their union with the header |
| RegionLaws.EnterKeeps | crates/chunkedge_anvil/src/lib.rs:602-631 | entering a first-fit gap keeps that invariant and loses no bit of offset or count |
| RegionMap.StoredTables | crates/chunkedge_anvil/src/lib.rs:602-643 | on disk, storing changes one location word and one timestamp word and no other table entry |
| RegionMap.StoredKeeps | crates/chunkedge_anvil/src/lib.rs:602-643 | past the header, storing changes no byte outside the record's own range |
| RegionMap.StoredRecord | crates/chunkedge_anvil/src/lib.rs:602-643 | afterwards the record stands in the file, which covers all of its sectors |
| RegionMap.ReadFrame | crates/chunkedge_anvil/src/lib.rs:414-501 | what a read returns depends only on the bytes of the record's own sectors |
| RegionMap.ReadOwnRecord | crates/chunkedge_anvil/src/lib.rs:414-501 | reading a written record gives its compression number and payload, inline or from the side file |
| RegionFormat.OpenReads | crates/chunkedge_anvil/src/lib.rs:366-501 | for any file of any bytes: the two header sectors, big-endian location words at 4i and timestamps at 4096+4i, the length word at 4096 times the offset, the scheme byte with 0x80 for a side file, and every error, byte by byte |
| RegionFormat.OpenUses | crates/chunkedge_anvil/src/lib.rs:395-409 | for any file, a sector is in use after opening if and only if it is one of the first two or some header word with a start from 2 on inside the file covers it |
| RegionFormat.SetAnswersIff | crates/chunkedge_anvil/src/lib.rs:551-577 | a set succeeds if and only if the chunk encodes and its payload has at most 1044475 bytes or large chunks are not to be skipped; otherwise the codec's error or that it is too large |
| RegionFormat.SetLeaves | crates/chunkedge_anvil/src/lib.rs:573-643 | the bytes that a successful set leaves: header words, length word, scheme byte, payload; in the side file if and only if it has more than 1044475 bytes, else over the least number of sectors; the file is whole sectors, and the other entries' words stay |
| RegionFormat.DeleteLeaves | crates/chunkedge_anvil/src/lib.rs:503-536 | a delete of a stored position zeroes the four bytes of its location word and removes its side file, and no other byte changes |
| RegionFormat.CreateLeaves | crates/chunkedge_anvil/src/lib.rs:354-364 | a new region file starts with 8192 zero bytes, and what followed stays |
| FolderModel.RefusalIsPrepare | crates/chunkedge_anvil/src/lib.rs:551-577 | the program's check on a set refuses exactly the sets that the map refuses, which are told by the codec, the payload length 1044475 and the option |
| RegionStore.SetOk | crates/chunkedge_anvil/src/lib.rs:538-643 | a set whose chunk encodes and is not refused succeeds, with its whole effect on tables, side files and bytes; which are refused is RegionFormat.SetAnswersIff |
| RegionStore.SetKeepsInv | crates/chunkedge_anvil/src/lib.rs:538-643 | every set, failing or not, keeps the allocator and record invariant |
| RegionStore.SetThenGet | crates/chunkedge_anvil/src/lib.rs:414-643 | after a successful set the position reads back as that chunk and timestamp |
| RegionStore.SetThenGetOther | crates/chunkedge_anvil/src/lib.rs:414-643 | a set, failing or not, leaves every other position of the region reading as before |
| RegionStore.FailedSetThenGet | crates/chunkedge_anvil/src/lib.rs:551-577 | after a failed set the position reads as absent in memory, whatever was there |
| RegionStore.DeleteKeepsInv | crates/chunkedge_anvil/src/lib.rs:503-536 | a delete keeps the invariant and the header's agreement with memory, and reports presence |
| RegionStore.DeleteThenGet | crates/chunkedge_anvil/src/lib.rs:503-536 | after a delete the position is absent and every other position reads as before |
| RegionReopen.OpenedUsedMeans | crates/chunkedge_anvil/src/lib.rs:395-409 | for any file, opening marks exactly the header sectors and those of the entries it honours |
| RegionReopen.CreateOk | crates/chunkedge_anvil/src/lib.rs:354-364 | a new region meets the invariants and reads as empty |
| RegionReopen.OpenRestores | crates/chunkedge_anvil/src/lib.rs:366-412 | reopening gives the same tables and a bitmap equal up to trailing free bits |
| RegionReopen.SetAlike | crates/chunkedge_anvil/src/lib.rs:538-643 | on regions alike up to trailing free bits, a set answers and writes the same and leaves them alike |
| RegionReopen.SetInStepIff | crates/chunkedge_anvil/src/lib.rs:551-577 | memory, header and reopened region agree after a set if and only if it succeeded or the position was empty |
| RegionRuns.EveryRun | crates/chunkedge_anvil/src/lib.rs:503-643 | after any sets and deletes, refused ones included, the allocator invariant holds and the next start is at most 520709 and stored in full |
| RegionStale.StaleIff | crates/chunkedge_anvil/src/lib.rs:503-643 | over any run, whether the header still holds an entry that memory has dropped, from the outcomes of the sets aimed at it |
| RegionStale.SyncedAfterRunIff | crates/chunkedge_anvil/src/lib.rs:551-577 | after any run from a new region, header and memory agree if and only if every set refused at a stored position was later made good there |
| RegionStale.ReopenSoundIff | crates/chunkedge_anvil/src/lib.rs:366-412 | what reopening rebuilds is a sound allocator if and only if no two header entries claim the same sector |
| RegionStale.SetKeepsApartIff | crates/chunkedge_anvil/src/lib.rs:573-643 | a successful set keeps the header entries apart if and only if it takes no sector that a stale entry claims |
| RegionDamage.SharedFrees | crates/chunkedge_anvil/src/lib.rs:503-536 | deleting one of two entries that share a sector frees the sector while the other entry still holds it |
| RegionDamage.ReusedSectors | crates/chunkedge_anvil/src/lib.rs:366-536 | a set that lands where a stale entry starts and takes no more sectors: reopened, the stale position reads the new chunk with its old time, and deleting it frees every sector that the new entry holds |
| RegionDamage.Overwrites | crates/chunkedge_anvil/src/lib.rs:573-643 | a set given the start of a range that another entry holds replaces what that position reads |
| RegionDamage.RefusedSetDamages | crates/chunkedge_anvil/src/lib.rs:538-643 | from a new region, for any codec and chunks: one stored, the next set of it refused, a second of no more sectors stored; reopened, the first position reads the second chunk |
| RegionDamage.RefusedSetLoses | crates/chunkedge_anvil/src/lib.rs:503-643 | going on from there: the first position deleted, a third stored, and the second position reads the third chunk |
| FolderLaws.CacheTransparent | crates/chunkedge_anvil/src/lib.rs:113-244 | an operation answers and writes what it would with every region opened afresh; the cache stays faithful unless a set fails at a stored position |
| FolderRecency.EveryRunRecent | crates/chunkedge_anvil/src/lib.rs:113-149 | after any run, the regions kept open are those used last, as many as there is room for, the latest first; regions found to have no file count, regions that fail to open do not |
| StoreTheorems.DeleteReads | crates/chunkedge_anvil/src/lib.rs:182-192 | across regions, a delete makes its position absent and changes no other |
| StoreTheorems.SetReads | crates/chunkedge_anvil/src/lib.rs:196-244 | across regions, a set shows its chunk at its position and changes no other |
| StoreTheorems.StoreIsMap | crates/chunkedge_anvil/src/lib.rs:113-244 | every run is answered as a finite map answers it, refusals included, which depend only on codec, payload length and option; the files end up holding that map, for any cache and capacity |
| StoreTheorems.CachesAgree | crates/chunkedge_anvil/src/lib.rs:113-149 | folders with different caches and capacities give the same answers and leave the same bytes |
| StoreTheorems.EmptyStore | crates/chunkedge_anvil/src/lib.rs:104-111 | a directory without region files is the empty map |
| StoreTheorems.EvictionInvisibleIff | crates/chunkedge_anvil/src/lib.rs:113-149 | a read after a set is the same with and without eviction if and only if the set went through or the position was empty |
| StoreMemory.RefusalsForget | crates/chunkedge_anvil/src/lib.rs:113-244 | every run that the cache has room for, refused sets included, is answered as by a map in which a refused set removes its position |
| StoreMemory.FreshFolderServes | crates/chunkedge_anvil/src/lib.rs:104-111 | a folder whose files hold a map can start such a run |
| Region.Region.Open | crates/chunkedge_anvil/src/lib.rs:366-412 | reading the header and rebuilding the bitmap in place gives the specified state, or the error; what it is byte by byte is RegionFormat.OpenReads and OpenUses |
| Region.Region.GetChunk | crates/chunkedge_anvil/src/lib.rs:414-501 | the read with all its early error returns is the specified read; what it is byte by byte is RegionFormat.OpenReads |
| Region.Region.DeleteChunk | crates/chunkedge_anvil/src/lib.rs:503-536 | the in-place delete, on disk or in memory only, reaches the specified state |
| Region.Region.SetChunk | crates/chunkedge_anvil/src/lib.rs:538-643 | the in-place set, with its two write branches and padding, reaches the specified state and result; which sets are refused and what bytes the others leave is RegionFormat.SetAnswersIff and SetLeaves |
| Region.Region.ChunkPositions | crates/chunkedge_anvil/src/lib.rs:645-665 | exactly the stored positions of the region, in table order without repetition |
| RegionFolder.RegionFolder.FindRegion | crates/chunkedge_anvil/src/lib.rs:113-149 | hit, miss, vacant entry and promotion in the cache of open regions are the specified fetch |
| RegionFolder.RegionFolder.GetChunk | crates/chunkedge_anvil/src/lib.rs:157-174 | the folder's read is a step of the specified folder |
| RegionFolder.RegionFolder.DeleteChunk | crates/chunkedge_anvil/src/lib.rs:182-192 | the folder's delete is a step of the specified folder |
| RegionFolder.RegionFolder.SetChunk | crates/chunkedge_anvil/src/lib.rs:196-244 | the folder's set, creating the region when needed, is a step of the specified folder |
| ScopeGraph.GrantsTransitive | crates/chunkedge_command/src/scopes.rs:1-38 | granting composes |
| ScopeGraph.RootGrantsAll | crates/chunkedge_command/src/scopes.rs:209-240 | every registered scope is reachable from the root, which justifies the root short cut |
| ScopeGraph.AddScopeConservative | crates/chunkedge_command/src/scopes.rs:150-170 | adding a scope changes no grant between scopes that were there |
| ScopeGraph.NeverRevoked | crates/chunkedge_command/src/scopes.rs:150-170 | over any additions of scopes and links, what was granted stays granted |
| ScopeGraph.HierarchyOnly | crates/chunkedge_command/src/scopes.rs:1-38 | without links, one scope grants another if and only if it is the root or a dotted ancestor |
| ScopeGraph.AddScopeMeans | crates/chunkedge_command/src/scopes.rs:150-170 | adding a scope registers the name, and the name up to each of its dots, and nothing else |
| ScopeGraph.LinkMeans | crates/chunkedge_command/src/scopes.rs:284-292 | linking registers both scopes and adds that one link |
| ScopeGraph.LinkGrantsBelow | crates/chunkedge_command/src/scopes.rs:284-292 | a link passes on everything below its target |
| GraphSearch.Search | crates/chunkedge_command/src/scopes.rs:230-239 | the depth-first loop ends on cyclic graphs and finds the goal if and only if a walk leads to it |
| ScopeRegistry.ConnectedIsReaches | crates/chunkedge_command/src/scopes.rs:209-240 | walks over node indices are paths of implications between scope names, both ways |
| ScopeRegistry.CommandScopeRegistry.AddScope | crates/chunkedge_command/src/scopes.rs:150-170 | the walk over dotted parts registers exactly the missing prefixes and keeps the graph in step |
| ScopeRegistry.CommandScopeRegistry.LinkScopes | crates/chunkedge_command/src/scopes.rs:284-292 | registers both scopes and adds exactly one implication |
| ScopeRegistry.CommandScopeRegistry.GrantsScope | crates/chunkedge_command/src/scopes.rs:209-240 | the query, short cuts included, answers exactly the documented relation |
| ScopeRegistry.CommandScopeRegistry.AnyGrants | crates/chunkedge_command/src/scopes.rs:259-266 | true if and only if one of the held scopes grants the asked one |
| CommandTree.HasPermission | crates/chunkedge_command/src/manager.rs:170-185 | a node is open if and only if it has no scopes or a client scope grants one of them |
| CommandTree.AllowedByOne | crates/chunkedge_command/src/manager.rs:170-185 | one of a node's scopes is enough, granted by any scope that the client holds |
| CommandTree.NextKeeps | crates/chunkedge_command/src/manager.rs:146-200 | a turn of the worklist keeps the invariant and lowers the measure: unvisited parent and node pairs, then stack size |
| CommandTree.Finished | crates/chunkedge_command/src/manager.rs:146-200 | when the worklist is empty the copy is exactly the permitted part |
| CommandTree.PermittedTree | crates/chunkedge_command/src/manager.rs:146-200 | the copy is, up to renaming, the nodes reachable through allowed nodes, one edge for each joined pair, of the first edge's kind |
| CommandDispatch.SkipMeans | crates/chunkedge_command/src/parsers.rs:156-164 | skipping removes the white space at the front, all of it and nothing else |
| CommandDispatch.WhitespaceIs | crates/chunkedge_command/src/parsers.rs:156-164 | white space is the property White_Space of Unicode, by its codes |
| CommandDispatch.SameWordIff | crates/chunkedge_command/src/parsers.rs:140-154 | comparing lower-case forms is comparing letters of ASCII in either case |
| CommandDispatch.LiteralMatchIff | crates/chunkedge_command/src/manager.rs:342-353 | a literal matches if and only if its name, in any spelling, is followed by the end or by a blank, which is taken too |
| CommandDispatch.ArgumentMatchIff | crates/chunkedge_command/src/manager.rs:355-384 | an argument matches if and only if its parser accepts a prefix; that prefix is the collected text and the rest is left |
| CommandDispatch.AdvanceShrinks | crates/chunkedge_command/src/manager.rs:330-391 | matching never lengthens the input, and shortens it at literals and arguments that take something |
| CommandDispatch.DispatchOn | crates/chunkedge_command/src/manager.rs:395-431 | short of stopping, an input leads to a leaf if and only if it does through some successor |
| DispatchEnds.EndsIff | crates/chunkedge_command/src/manager.rs:293-431 | the nested calls of the search stop at some depth if and only if no chain of permitted calls comes back to a call it made before |
| DispatchEnds.LoopIsIdle | crates/chunkedge_command/src/manager.rs:330-431 | a search that comes back runs around a cycle of redirects and of nodes that need take nothing from the input |
| DispatchEnds.NoIdleCycleEnds | crates/chunkedge_command/src/manager.rs:330-431 | without such a cycle the search ends for every client and every input |
| CommandParser.ParseCommandArgs | crates/chunkedge_command/src/manager.rs:293-431 | on every search that ends: executables, arguments and modifiers are those of the tree of its calls, and it is valid if and only if that tree has an executable; what the arguments and modifiers are is ParserArguments.ReportedMeans |
| ParserLaws.LeafIff | crates/chunkedge_command/src/manager.rs:293-431 | a node is executed if and only if some parse of the input leads to it |
| ParserLaws.Executions | crates/chunkedge_command/src/manager.rs:395-431 | there is one execution for each way through the graph to an executable, parallel edges counting apart, and none besides |
| ParserLaws.OneExecution | crates/chunkedge_command/src/manager.rs:330-431 | executed once, the calls that count are the hops of that parse, and arguments and modifiers are those collected along it |
| ParserArguments.AdvanceMeans | crates/chunkedge_command/src/manager.rs:330-391 | what a hop takes: blanks, its text, blanks; nothing for a redirect or the root, the name in some spelling for a literal, what the parser accepts for an argument |
| ParserArguments.AcceptsIff | crates/chunkedge_command/src/manager.rs:395-431 | a parse follows the latest edges through allowed nodes, takes the whole input, and ends at the first executable with nothing left of it |
| ParserArguments.ReportedMeans | crates/chunkedge_command/src/manager.rs:330-431 | the reported arguments are, in order, the texts of the argument calls after the last redirect, behind the given ones only where there is no redirect; the modifiers are one for every call by a child edge to a node that has one, and redirects drop none |
| ParserArguments.OneExecutionMeans | crates/chunkedge_command/src/manager.rs:330-431 | executed once, these calls are exactly the hops of the parse that leads there |
| CommandDispatch.DispatchedIsAdvertised | crates/chunkedge_command/src/manager.rs:146-431 | every node dispatched to is a registered executable and a node of the tree sent under the same scopes |
| ParserLaws.ReportedIsAdvertised | crates/chunkedge_command/src/manager.rs:146-431 | every node that the parser reports as newly executed is a registered executable and a node of the tree sent under the same scopes |
| CommandBuilder.AddChildBuilt | crates/chunkedge_command/src/graph.rs:303-348 | literals and arguments keep the shape of built graphs: one root, and a child edge first into every other node |
| CommandBuilder.AddRedirectBuilt | crates/chunkedge_command/src/graph.rs:384-393 | redirects keep that shape |
| CommandBuilder.CommandGraphBuilder.AddLiteral | crates/chunkedge_command/src/graph.rs:303-320 | appends one literal below the current node and moves to it |
| CommandBuilder.CommandGraphBuilder.AddArgument | crates/chunkedge_command/src/graph.rs:329-348 | appends one argument below the current node and moves to it |
| CommandBuilder.CommandGraphBuilder.RedirectTo | crates/chunkedge_command/src/graph.rs:384-393 | adds one redirect edge and moves to its target |
| CommandBuilder.CommandGraphBuilder.WithExecutable | crates/chunkedge_command/src/graph.rs:404-414 | marks the current node and registers it as executable |
| CommandBuilder.CommandGraphBuilder.WithScopes | crates/chunkedge_command/src/graph.rs:463-473 | replaces the current node's scopes and nothing else |
| CommandBuilder.EverythingKept | crates/chunkedge_command/src/graph.rs:303-348 | with every node allowed, the tree holds every node of a built graph |
| CommandBuilder.KindsDifferIff | crates/chunkedge_command/src/manager.rs:393-431 | tree and dispatch see different kinds for a pair if and only if it is joined by a child and a redirect edge |
| CommandBuilder.KindsCanDiffer | crates/chunkedge_command/src/graph.rs:384-393 | a built graph with such a pair |
| CommandBuilder.RedirectsDecide | crates/chunkedge_command/src/manager.rs:330-430 | on a built graph with non-empty literals and consuming parsers, dispatch ends for every client and input when no walk along redirects alone returns to its start |
| CommandBuilder.DispatchCanLoop | crates/chunkedge_command/src/graph.rs:384-393 | a graph the builder accepts, a literal redirected to itself, on which the input of its name never ends |
| LoaderProtocol.StepKeeps | crates/chunkedge_anvil/src/bevy.rs:66-236 | every step of tick or worker keeps the accounting of every position |
| LoaderProtocol.EveryInterleaving | crates/chunkedge_anvil/src/bevy.rs:140-236 | in every interleaving a position is in flight once if sent and otherwise not at all, and requests equal load events plus what is pending |
| LoaderProtocol.Priority | crates/chunkedge_anvil/src/bevy.rs:153-169 | a waiting position gets the smaller of the distance and the priority that it has |
| LoaderProtocol.CanAnswerIff | crates/chunkedge_anvil/src/bevy.rs:44-46 | the worker can answer if and only if it holds a position and fewer than 4096 answers wait |
| LoaderProtocol.CanAdvance | crates/chunkedge_anvil/src/bevy.rs:181-236 | while something is pending, a step other than a new request is possible and lowers the remaining work |
| LoaderProtocol.CanFinish | crates/chunkedge_anvil/src/bevy.rs:181-236 | from every reachable state a run without new requests answers every request exactly once |
| LoaderFairness.UsefulBounded | crates/chunkedge_anvil/src/bevy.rs:181-236 | however the threads are scheduled, no more steps hand something on than there is work at the start |
| LoaderFairness.FairRunFinishes | crates/chunkedge_anvil/src/bevy.rs:181-236 | from every reachable state, every fair run without new requests that is long enough for its work answers each request exactly once |
| AnvilLevel.AnvilLevel.ForceChunkLoad | crates/chunkedge_anvil/src/bevy.rs:66-79 | in place, one request step with the best priority; a sent position is left alone |
| AnvilLevel.AnvilLevel.QueuePos | crates/chunkedge_anvil/src/bevy.rs:153-169 | in place, one request step that keeps the better of two priorities |
| AnvilLevel.AnvilLevel.CollectNew | crates/chunkedge_anvil/src/bevy.rs:211-219 | lists exactly the waiting positions once each, nearest first, and marks all as sent |
| AnvilLevel.AnvilLevel.SendRecvChunks | crates/chunkedge_anvil/src/bevy.rs:181-225 | one tick in place is a run of the protocol's steps without new requests: an event for every result in order, then one request for every waiting position, nearest first |
| AnvilLevel.LeadsKeeps | crates/chunkedge_anvil/src/bevy.rs:181-236 | what such runs lead to keeps the accounting of every position |
| Items.WindowSlots | crates/chunkedge_inventory/src/lib.rs:484-506 | which slot every window index names: 46 of the player alone, or those of the open inventory and then 37 of the player from slot 9 on |
| Items.SetSlotEffect | crates/chunkedge_inventory/src/lib.rs:484-506 | window indices name slots injectively: writing one changes that slot, the total by the difference, and no other slot |
| Clicks.RangeCheckIff | crates/chunkedge_inventory/src/validate.rs:33-46 | an index that passes the range check names a slot unless it is the one past a lone player inventory |
| Clicks.ChangesExist | crates/chunkedge_inventory/src/validate.rs:30-61 | where the validator gets to look at changes and does not panic, every one names a slot |
| ClickAcceptance.VerdictIff | crates/chunkedge_inventory/src/validate.rs:18-575 | any packet that does not panic is accepted, and with this verdict, if and only if buttons, places, number of changes and sum are right, and each stack comes from the first source that has its kind; said by literal numbers for each of the seven modes |
| ClickAcceptance.PanicsIff | crates/chunkedge_inventory/src/lib.rs:868-1259 | the handler panics if and only if nothing is open and the packet gets as far as looking at slot 46: changing it, shift-clicking it, or dropping it with no change listed |
| ClickActions.YieldsSlots | crates/chunkedge_inventory/src/lib.rs:1141-1225 | a packet that is carried out leaves its outcome in the slots it names and every other slot as it was |
| ClickActions.LeftClickSwaps | crates/chunkedge_inventory/src/validate.rs:206-236 | a left click that trades slot and cursor is accepted and trades them |
| ClickActions.RightClickSwaps | crates/chunkedge_inventory/src/validate.rs:206-283 | so is a right click on another kind |
| ClickActions.ClickMerges | crates/chunkedge_inventory/src/validate.rs:238-283 | moving any number of items from the cursor onto a stack of the same make is accepted and does so |
| ClickActions.ClickPlaces | crates/chunkedge_inventory/src/validate.rs:238-283 | putting some of the cursor into an empty slot is accepted and does so |
| ClickActions.RightClickTakes | crates/chunkedge_inventory/src/validate.rs:238-283 | taking any part of a stack with a right click is accepted and does so |
| ClickActions.ClickIdles | crates/chunkedge_inventory/src/validate.rs:142-205 | a click that changes nothing, on a slot or the margin, is accepted and changes nothing |
| ClickActions.LeftClickOutsideDrops | crates/chunkedge_inventory/src/validate.rs:163-183 | a left click outside drops the whole cursor |
| ClickActions.DropsOne | crates/chunkedge_inventory/src/validate.rs:406-466 | the drop key drops one item of the slot |
| ClickActions.DropsAll | crates/chunkedge_inventory/src/validate.rs:406-466 | with the control key it drops the whole stack |
| ClickActions.HotbarTrades | crates/chunkedge_inventory/src/validate.rs:346-404 | a number key or the off-hand key trades two slots |
| ClickActions.DragGoesOn | crates/chunkedge_inventory/src/validate.rs:467-482 | the packets of a drag before its end change nothing |
| ClickActions.DragSpreads | crates/chunkedge_inventory/src/validate.rs:467-524 | the end of a drag over any slots spreads the cursor in any amounts |
| ClickActions.DoubleClickCollects | crates/chunkedge_inventory/src/validate.rs:525-575 | a double click collects any amounts from any slots to the cursor |
| ClickActions.ShiftClickMoves | crates/chunkedge_inventory/src/validate.rs:284-345 | a shift click moves a stack into one or two other slots, in any amounts |
| ClickLaws.ApplyTotal | crates/chunkedge_inventory/src/lib.rs:1141-1225 | in all kinds or in one, the writes change the count by the differences of the last write to each slot |
| ClickLaws.ChangeItems | crates/chunkedge_inventory/src/validate.rs:139-575 | in every mode the stack put into a slot holds, of every kind, what the packet names, except that a double click keeps the kind of the slot |
| ClickLaws.AppliedTotal | crates/chunkedge_inventory/src/validate.rs:139-609 | an applied click, repeated slots included, changes every count by its balance, which is known from the packet and the state before |
| ClickLaws.HandleEffect | crates/chunkedge_inventory/src/lib.rs:868-1259 | what any packet does to the number of items, of all kinds or of one, over player, open inventory, cursor and drops |
| ClickLaws.BalanceIsMissing | crates/chunkedge_inventory/src/validate.rs:132-138 | the check on the total makes an applied packet change the number of items, all kinds together, by exactly what its sum misses |
| ClickLaws.HandleConserves | crates/chunkedge_inventory/src/lib.rs:868-1245 | a packet that names each slot once never adds to the number of items, all kinds together, and keeps it if and only if none of the two losing cases occurs |
| ClickLaws.HandleConservesIff | crates/chunkedge_inventory/src/lib.rs:868-1245 | for any applied packet, the number of items changes by what its sum misses, repeated slots counted |
| ClickLaws.RunsConserve | crates/chunkedge_inventory/src/validate.rs:132-138 | over any run of packets that name each slot once, the number of items, all kinds together, never grows, and stays without double or creative clicks |
| ClickLaws.RunsBalance | crates/chunkedge_inventory/src/lib.rs:868-1259 | over any run, repeated slots included, each kind changes by exactly the sum of what its packets come to |
| ClickLaws.Provenance | crates/chunkedge_inventory/src/validate.rs:139-575 | each stack the validator returns has kind and components of a stack already there; only counts come from the packet |
| ClickMakes.VerdictSourced | crates/chunkedge_inventory/src/validate.rs:139-575 | where empty stacks are of kind air, each stack the validator returns is such a one or has the make of items in the window or on the cursor |
| ClickMakes.NoNewMakes | crates/chunkedge_inventory/src/lib.rs:868-1259 | over any run of packets, no kind and no components appear, in slots, on the cursor or dropped, that items did not have at the start |
| ClickKinds.KindKeptIff | crates/chunkedge_inventory/src/validate.rs:132-138 | any packet keeps the items of a kind if and only if the stacks it names hold as many of it as those they replace |
| ClickKinds.SwapKeepsKinds | crates/chunkedge_inventory/src/validate.rs:206-236 | a left click that swaps slot and cursor keeps every kind |
| ClickKinds.ClickKeepsKindsIff | crates/chunkedge_inventory/src/validate.rs:206-283 | an accepted click on one slot keeps every kind if and only if slot and cursor have one kind between them, stay as they are, or trade places |
| ClickKinds.OneKindKeepsIff | crates/chunkedge_inventory/src/validate.rs:139-575 | in every mode, where one kind is involved, an accepted click keeps every kind if and only if it keeps the total |
| ClickPredictions.SlotsAsExpected | crates/chunkedge_inventory/src/validate.rs:139-575 | after an accepted click in step, a slot the packet names holds what its last change says, if and only if it is none of the listed double, drop and creative clicks |
| ClickPredictions.OthersUntouched | crates/chunkedge_inventory/src/lib.rs:1141-1225 | a slot the packet does not name is unchanged if and only if it is not a filled slot under a drop that lists no change |
| ClickPredictions.CursorAsExpected | crates/chunkedge_inventory/src/validate.rs:139-575 | after an accepted click in step the cursor is as the client named it, if and only if it is none of the listed outside, margin, drop and creative clicks |
| ClickPredictions.HandleInStepIff | crates/chunkedge_inventory/src/lib.rs:868-1135 | a refused packet changes nothing, an accepted one out of step only the state id, by one; and which packets count as out of step |
| ClickPredictions.HotbarTradesIff | crates/chunkedge_inventory/src/validate.rs:346-404 | a hotbar click gives a slot the other slot's old stack, components and all, if and only if the packet gives it the other count |
| ClickPredictions.HotbarStays | crates/chunkedge_inventory/src/validate.rs:346-404 | where it does not, both slots hold one kind and the slot keeps its own count |
| ClickExamples.RightClickTradesKinds | crates/chunkedge_inventory/src/validate.rs:206-283 | an accepted right click with one diamond that turns 64 dirt into 64 diamonds |
| ClickExamples.DoubleClickLoses | crates/chunkedge_inventory/src/validate.rs:525-575 | an accepted double click that loses five items |
| ClickExamples.CreativeClickLoses | crates/chunkedge_inventory/src/lib.rs:868-1259 | an accepted creative click that loses five items |
| ClickExamples.SlotNamedTwice | crates/chunkedge_inventory/src/validate.rs:582-609 | an accepted packet that names one slot twice and makes two items of one |
| ClickExamples.OutsideDropsAll | crates/chunkedge_inventory/src/validate.rs:163-183 | an accepted right click outside the window that drops five items where the client drops one |
| ClickExamples.DropUnsaid | crates/chunkedge_inventory/src/validate.rs:406-466 | an accepted drop that lists no change and empties its slot |
| ClickExamples.DropPastEnd | crates/chunkedge_inventory/src/lib.rs:1049-1080 | a drop key that the validator accepts and on which the drop panics |
| ClickValidator.CalculateNetItemDelta | crates/chunkedge_inventory/src/validate.rs:582-609 | the branching loop computes the new counts less the old ones |
| ClickValidator.CheckStatic | crates/chunkedge_inventory/src/validate.rs:18-130 | the checks on window, slot, button, carried and changed stacks accept exactly the specified packets |
| ClickValidator.ValidateClickSlotPacket | crates/chunkedge_inventory/src/validate.rs:18-575 | the validator with its branches and loops, mode by mode, reaches the specified verdict: the same packets accepted, with the same stacks; which those are is ClickAcceptance.VerdictIff |
| ClickHandler.Inventory.ReplaceSlot | crates/chunkedge_inventory/src/lib.rs:144-155 | writes one slot and returns what it held |
| ClickHandler.ClickSession.SetWindowSlot | crates/chunkedge_inventory/src/lib.rs:1141-1225 | writes the slot of whichever inventory the window index stands for, and no other |
| ClickHandler.ClickSession.HandleClickSlot | crates/chunkedge_inventory/src/lib.rs:868-1259 | one packet applied in place reaches the specified state of both inventories, cursor, drops and state id |
| ClickHandler.ClickSession.HandleClickSlots | crates/chunkedge_inventory/src/lib.rs:868-1259 | so do all packets of a tick |
| Leb128.LebLength | crates/chunkedge_binary/src/var_long.rs:37-42 | the encoding needs at most n bytes if and only if n groups of seven bits hold the value |
| Leb128.WrittenSizeIsLength | crates/chunkedge_binary/src/var_long.rs:37-42 | the size computed from the leading zeros is the length of the encoding |
| LebReading.ValueOfLeb | crates/chunkedge_binary/src/var_long.rs:117-128 | reading an encoding with any suffix gives the value and leaves the suffix |
| LebFormat.LebWorth | crates/chunkedge_binary/src/var_long.rs:101-113 | the bytes of an encoding: all but the last at least 128, and seven bits of each, lowest first, together worth the number |
| LebFormat.LongDecodes | crates/chunkedge_binary/src/var_long.rs:117-128 | for any bytes: a number ends at the first byte below 128; none among ten is too large, too few are incomplete, and what is read is worth the bytes taken, modulo 2^64 |
| VarLong.EncodePortable | crates/chunkedge_binary/src/var_long.rs:101-113 | the portable loop writes LEB128 |
| VarLong.DecodeLoop | crates/chunkedge_binary/src/var_long.rs:117-128 | the shifting loop reads what at most ten bytes say, with both errors |
| VarLong.RoundTrip | crates/chunkedge_binary/src/var_long.rs:101-128 | decoding inverts encoding, consumes exactly the encoded bytes, and these are at most ten |
| VarLongVector.PdepByte | crates/chunkedge_binary/src/var_long.rs:59-66 | a mask byte of seven ones deposits one group of seven bits |
| VarLongVector.SpreadMeans | crates/chunkedge_binary/src/var_long.rs:59-66 | lane k of the spread vector is group k of the value, for all sixteen lanes |
| VarLongVector.NeededIsLength | crates/chunkedge_binary/src/var_long.rs:68-77 | the length of the lane mask is the length of the encoding |
| VarLongVector.VectorIsPortable | crates/chunkedge_binary/src/var_long.rs:52-95 | for every 64-bit value the vector encoder writes the bytes of the portable one |
| VarInt.Stage1Spreads | crates/chunkedge_binary/src/var_int.rs:73-78 | the masks and shifts put each seven-bit group in its own byte and drop the sign extension |
| VarInt.NeededIsLength | crates/chunkedge_binary/src/var_int.rs:80-83 | the byte count from the leading zeros is the length of the encoding, and the subtraction does not underflow |
| VarInt.EncodeIsLeb | crates/chunkedge_binary/src/var_int.rs:40-94 | the encoder writes LEB128 of the 32-bit pattern in exactly the announced size, at most five bytes |
| LebFormat.IntWorth | crates/chunkedge_binary/src/var_int.rs:67-94 | the bytes of an encoded 32-bit integer are worth its pattern |
| LebFormat.IntDecodes | crates/chunkedge_binary/src/var_int.rs:47-110 | for any bytes: as for 64 bits, with at most five bytes and modulo 2^32 |
| VarInt.DecodeLoop | crates/chunkedge_binary/src/var_int.rs:47-110 | the 32-bit loop yields the low 32 bits of what at most five bytes say, with both errors |
| VarInt.RoundTrip | crates/chunkedge_binary/src/var_int.rs:67-110 | decoding inverts encoding and leaves any suffix unread |
| Palette.WidthIsLeast | crates/chunkedge_anvil/src/parsing.rs:377-380 | the bit width is the least that can hold the number |
| Palette.CellInverse | crates/chunkedge_anvil/src/parsing.rs:240-246 | the coordinates of cell i lie in the section and give i back |
| Palette.CoordinatesInverse | crates/chunkedge_anvil/src/parsing.rs:240-246 | every coordinate triple is that of exactly one cell number |
| Palette.ReadLongs | crates/chunkedge_anvil/src/parsing.rs:225-248 | the nested loops assign every cell its palette entry, or fail if and only if an index is out of the palette |
| PaletteWords.NumberIsValue | crates/chunkedge_anvil/src/parsing.rs:225-227 | the number that the bits of a 64-bit word stand for is its value |
| PaletteWords.FieldBits | crates/chunkedge_anvil/src/parsing.rs:216-234 | for every 64-bit word, shifting it right and masking it is the division and remainder by which the section is read |
| PaletteFormat.BlocksJudged | crates/chunkedge_anvil/src/parsing.rs:169-234 | a block section is accepted if and only if it has one palette entry, or the number of longs that a table of widths gives (256 longs of 4-bit fields for 2 to 16 entries, and so on) with every field below the palette length; otherwise the right error |
| PaletteFormat.BiomesJudged | crates/chunkedge_anvil/src/parsing.rs:255-300 | so is a biome section, by its own table from one bit on |
| PaletteFormat.BlockAt | crates/chunkedge_anvil/src/parsing.rs:216-248 | block (x, y, z) is the palette entry named by the bits of field i mod n of long i / n, with i = x + 16 z + 256 y |
| PaletteFormat.BiomeAt | crates/chunkedge_anvil/src/parsing.rs:255-300 | biome (x, y, z) likewise, with i = x + 4 z + 16 y |
| Palette.ReadSection | crates/chunkedge_anvil/src/parsing.rs:169-248 | each check and the single-entry case, for blocks and for biomes: the right error, or every cell holds what its index says; when, and which bits that is, is in PaletteFormat |
| Palette.PackIndex | crates/chunkedge_anvil/src/parsing.rs:229-238 | field extraction finds every index that was packed without straddling words |
| Palette.PackFits | crates/chunkedge_anvil/src/parsing.rs:216-219 | packed words fit in 64 bits |
| Palette.ReadsBack | crates/chunkedge_anvil/src/parsing.rs:169-248 | a stored section is accepted and read back cell by cell if and only if the palette has fewer entries than the section has cells |
| TrackedData.RemoveMeans | crates/chunkedge_entity/src/tracked_data.rs:62-79 | taking an entry out of the list removes its index from the map it stands for |
| TrackedData.AppendMeans | crates/chunkedge_entity/src/tracked_data.rs:37-60 | appending an entry with a new index adds it to the map |
| TrackedData.TrackedData.InitData | crates/chunkedge_entity/src/tracked_data.rs:24-26 | nothing if and only if the map is empty, otherwise all entries in order and one terminator |
| TrackedData.TrackedData.RemoveInitValue | crates/chunkedge_entity/src/tracked_data.rs:62-79 | map removal with the right answer; the other entries keep their bytes and order |
| TrackedData.TrackedData.InsertInitValue | crates/chunkedge_entity/src/tracked_data.rs:37-60 | map update; the entry goes last and the others keep their bytes and order |

## Left out

- StoreTheorems.StoreIsMap: only runs in which no set fails at a position holding a chunk, because the code then keeps memory and file apart; the codec is assumed to decode what it encoded.
- FolderLaws.CacheTransparent: file handles, operating system errors and concurrent writers do not occur; an open region and its file are in one directory object.
- ClickHandler.ClickSession.HandleClickSlot: no readonly inventories, no wrap-around of the state id, no resynchronisation packets or change flags; a packet on which the program panics is not handled.
- ClickHandler.ClickSession.HandleClickSlots: the same holds of all packets of a tick.
- CommandParser.ParseCommandArgs: called only where the search ends, because the code overflows its stack elsewhere; which searches these are is stated exactly by DispatchEnds.EndsIff.
- CommandTree.PermittedTree: the graph library lists edges newest first and finds the newest edge of a pair; serialisation of the tree into the packet is not modelled.
- TrackedData.TrackedData.InsertInitValue: entries of four gigabytes or more, whose length the table would truncate.
- Palette.ReadSection: block and biome names, properties and block entities around the packed data, and where a section lies in its chunk.
- VarInt.DecodeLoop: the two decoding functions differ only in the type of their errors and are modelled as one.
- Gzip, Zlib and NBT are one abstract codec whose two directions may fail.
- The clock is an input, and region and side files are found by position instead of by name.
- Listing the chunks of all regions by parsing file names.
- Removing scopes, since the node reuse of the graph library decides what that means.
- CommandDispatch.LiteralMatchIff: letters are compared in ASCII; the lower-case forms of other scripts are not modelled.
- The concrete argument parsers are arbitrary functions that accept a prefix of the input.
- The builder's parser and modifier registration, and running modifiers and executables.
- The queues are sequences; how the chunk is read by the worker and what happens when a chunk fails to load or a channel is closed.
- The update bytes of tracked data, which are only appended and cleared.
- Scheduling, queries and change detection of the entity component system, packet transport, generated tables and macros.
- Status effects, attributes, hitboxes and other floating-point code.
