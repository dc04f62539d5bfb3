# A model of the Bolt key/value store in C++

This project models the finished parts of a C++ port of the Bolt B+tree store and proves what they
promise: the cursor over a tree of pages and in-memory nodes, the node as an ordered map and as a byte
codec, the freelist with the start and end of transactions, and the byte-string order below all of it.

`dafny verify dfyconfig.toml` checks everything.

| file | contents |
|---|---|
| `Slices.dfy`, `Hex.dfy` | byte strings, their order, hexadecimal text |
| `Pages.dfy`, `NodeCodec.dfy` | page headers, element headers, the stored image of a node |
| `Ordered.dfy`, `Nodes.dfy` | halving search, the inode vector as a finite map, the node object |
| `Strays.dfy` | halving search among keys of which only the sizes are known |
| `Trees.dfy`, `Seeking.dfy`, `Backward.dfy` | trees, cursor positions and the moves between them |
| `Buckets.dfy`, `Searches.dfy`, `Stacks.dfy`, `Cursors.dfy` | the store behind a tree, the paths a search may take, the cursor's stack, the cursor object |
| `FreeLists.dfy`, `Protocol.dfy`, `Snapshots.dfy`, `Database.dfy` | free and pending pages, the step protocol of transactions, safety over whole runs, the database object |

How the parts fit together:

- A tree position is the list of indices on the cursor's stack. `Trees.Flatten` lists all entries of the
  leaves from left to right; `Trees.After` and `Trees.From` are the entries after, and at and after, a
  position. The moves are defined by recursion from the root, and `Cursors.Cursor` shows that the
  stack manipulation, which works from the other end, computes them.
- `Buckets.Represents` relates a bucket's store (node cache, inline root, dirty pages, mapped pages) to the
  tree. Pages are bytes; their elements are read by the same self-relative offsets that `write` stores.
- Contracts and lemmas such as `Buckets.NodeBranchMeans`, `Stacks.EntryOnTop` or `Protocol.StartWriteFrees` say in
  terms of stored fields what the functions used elsewhere stand for.
- `Searches.PathTaken` is the path a search takes through a store when the copies of page elements find given
  bytes; `Searches.Reliable` says, from the key, the key sizes and the store, when it is right with all bytes.
- `Protocol.Apply` is one step of one caller; `Database.DB` holds the objects and proves that each method
  is that step.

Places where the code does something else than its comments say, and the model follows the code:

- `seek` tests the found key the wrong way round and so always returns an empty pair (bolt/cursor.cpp:213).
  Its properties are stated on the position it leaves.
- `prev` calls `last()`, which restarts at the root (bolt/cursor.cpp:80). `Cursor.Prev` is that code;
  `Cursor.PrevIntended` is the move its comment describes.
- On a page, `search` compares the key with copies of the elements, and a copy looks for its key bytes next
  to itself (bolt/page.cpp:48-58, bolt/cursor.cpp:280 and 310). The copy keeps its key size, so the model
  searches keys of the right sizes with arbitrary bytes; the cursor's methods take those bytes as a parameter.
- A branch node can be written only if every child id equals the page id (bolt/node.cpp:182), and reading a
  non-empty branch page always exits (bolt/node.cpp:212-219).
- `release` merges without sorting the released pages (bolt/freelist.cpp:17-19). What a library merge does on
  runs that are not sorted is not fixed; every result that interleaves the two runs in order is admitted.
- The overflow path of the freelist reader stops one id early (bolt/freelist.cpp:27-35).
- `FreeList::rollback` and `DB::remove_tx` are empty (bolt/freelist.cpp:57-58, bolt/db.cpp:349-351), and
  `commit` does nothing (bolt/tx.cpp:55-87). Steps for the promised behaviour and for the empty bodies are
  both in the protocol, under different names or a flag.
- A closed reader has freed its meta page (bolt/tx.cpp:134-136) but stays tracked, so the next writer reads
  an arbitrary id there (bolt/db.cpp:229-233). `Protocol.Step.Scribble` puts any id there.
- `DB::meta` returns a blank `Meta` (bolt/db.cpp:251). The model reads the committed transaction id there, as
  its callers expect.

## Model

| member | source | states |
|---|---|---|
| Slices.LessIsLex | bolt/slice.h:130-136 | `operator<`, built on memcmp and lengths, is the dictionary order of bytes |
| Slices.LessTransitive | bolt/slice.h:130-136 | `operator<` is transitive |
| Slices.LessTrichotomy | bolt/slice.h:126-136 | exactly one of less, equal contents and greater holds for any two slices |
| Slices.EqualIsSame | bolt/slice.h:126-128 | `operator==` holds exactly for equal contents |
| Slices.CompareSign | bolt/slice.h:92-103 | the sign of `compare` is less, equal or greater |
| Slices.DifferenceOffset | bolt/slice.h:105-113 | the offset ends the common prefix, and the bytes there decide `operator<` and equality |
| Hex.ToString | bolt/slice.cpp:20-55 | the loop yields per byte the digits of its high and low half, 0-9 and A-F by character code, or the bytes themselves |
| Hex.DecodeHex | bolt/slice.cpp:27-77 | succeeds exactly on an even number of characters in 48..57, 65..70 or 97..102, and then yields one byte per pair of digit values, else nothing |
| Hex.DigitValue | bolt/slice.cpp:27-40 | the value of each character, by range |
| Hex.CaseIsIrrelevant | bolt/slice.cpp:27-40 | texts that differ in the case of letters are accepted alike and decode alike |
| Hex.DecodeInvertsEncode | bolt/slice.cpp:20-77 | decoding inverts encoding for every byte string |
| Hex.EncodeInvertsDecode | bolt/slice.cpp:20-77 | encoding a decoded text gives its upper-case form |
| Pages.HeaderWords | bolt/page.h:76-105 | a stored element header reads back as its four 32-bit words, whatever surrounds it |
| Pages.LowByteFirst | bolt/page.h:76-105 | integers are stored and read with the low byte first |
| Pages.Memcpy | bolt/node.cpp:188-191 | the copied range holds the bytes and no other byte of the buffer changes |
| Pages.Page.StoreLeafElement | bolt/node.cpp:172-176 | the four field stores leave exactly the 16-byte header |
| Pages.Page.StoreBranchElement | bolt/node.cpp:178-181 | the three field stores leave exactly the 16-byte header |
| NodeCodec.FootprintIsSize | bolt/node.cpp:21-30 | the stored image is exactly `size()` minus the page header long |
| NodeCodec.ProgressIsLayout | bolt/node.cpp:168-192 | after any number of inodes all their headers and payloads are in place: no write damages an earlier one |
| NodeCodec.LeafElementRoundTrip | bolt/page.cpp:11-19 | element i of a written leaf reads back flags, key and value of inode i, and its `pos` is (count - i) * 16 plus all earlier lengths |
| NodeCodec.BranchElementRoundTrip | bolt/page.cpp:21-24 | element i of a branch image reads back the key and child id of inode i |
| NodeCodec.LeafRoundTrip | bolt/node.cpp:150-228 | reading a written leaf restores flags, key and value of every inode in order, and succeeds exactly when no key is empty |
| NodeCodec.DecodeWhen | bolt/node.cpp:195-228 | a leaf page can be read exactly when no key is empty, any other page exactly when it has no element; a leaf's inodes are the fields of its elements |
| Ordered.HalvingSearch | bolt/node.cpp:83 | the library's loop, on keys in any order, is the halving search that the other results speak of |
| Ordered.HalveHalves | bolt/node.cpp:83 | that search compares the middle key and goes on in the half that the outcome leaves |
| Ordered.HalveIsLowerBound | bolt/node.cpp:83 | on ascending keys the halving search finds the first key not below the given one |
| Ordered.LowerBoundCuts | bolt/node.cpp:83 | that position separates smaller keys from the others |
| Ordered.ExactIsMember | bolt/node.cpp:77-93 | the exact-match test holds exactly for keys of the map, and finds their inode |
| Ordered.PutIsMapUpdate | bolt/node.cpp:114-127 | putting a key under itself keeps the order and updates the map |
| Ordered.RenameKeepsOrder | bolt/node.cpp:96-132 | a renaming put keeps the order if and only if the new key fits strictly between the slot's neighbours |
| Ordered.RenameIsMapUpdate | bolt/node.cpp:96-132 | where order is kept, the map loses the old key and gains the new inode |
| Ordered.DelIsMapRemoval | bolt/node.cpp:134-148 | deleting removes the key from the map, and changes nothing exactly when it is absent |
| Ordered.DelKeepsOrder | bolt/node.cpp:134-148 | deleting keeps the vector strictly sorted |
| Ordered.FitsWhenSamePlace | bolt/node.cpp:96-132 | a new key fits the old key's slot if and only if every other key of the map differs from it and compares with it as with the old one |
| Ordered.RunRefinesMap | bolt/node.cpp:77-148 | a run of get, put, renaming put and delete, up to the first fatal input, keeps the vector sorted throughout if and only if every rename takes the old key's place in the map; and then it answers as the finite map would |
| Ordered.OwnPutsKeepPlaces | bolt/node.cpp:96-132 | a run whose puts do not rename always does |
| Ordered.ChildIndexFinds | bolt/node.cpp:42-51 | the child index is i exactly for the key of inode i, and -1 exactly for absent keys |
| Ordered.SiblingsInverse | bolt/node.cpp:55-75 | next and previous sibling undo each other and yield nothing exactly at the last and the first child |
| Nodes.Node.SerializedSize | bolt/node.cpp:21-30 | the 32-bit loop computes the page header plus the image length, exactly when that is below 2^31, and its low 32 bits always |
| Nodes.Node.Lookup | bolt/node.cpp:77-93 | exits without a result pointer; otherwise returns 0 and the value of a key in the map, -1 and nothing for any other key |
| Nodes.Node.Insert | bolt/node.cpp:96-132 | dies exactly without a meta page, at or above its high-water mark or on an empty key; otherwise updates the slot; the order survives exactly when the new key fits, and then the map loses the old key and gains the new inode |
| Nodes.Node.Delete | bolt/node.cpp:134-148 | removes the key; an absent key leaves the vector and the rebalance mark alone |
| Nodes.Node.PerformAll | bolt/node.cpp:77-148 | the node object, over a run of operations whose renames keep their places, answers as a finite map |
| Nodes.Node.Write | bolt/node.cpp:150-193 | fills exactly the image after the data pointer, sets flag, count and overflow, changes no other byte; fails exactly above 0xffff inodes or for a branch with a child id other than the page's |
| Nodes.Node.Read | bolt/node.cpp:195-228 | rebuilds kind, inodes, id and first key; succeeds exactly when the page decodes |
| Nodes.ReadElements | bolt/node.cpp:203-221 | the reading loop yields all leaf elements, or stops on an empty key or on any branch element |
| Nodes.WriteThenRead | bolt/node.cpp:150-228 | writing a leaf and reading it into another node restores flags, key and value of every inode, exactly when no key is empty |
| Trees.LeftmostSeesAll | bolt/cursor.cpp:124-142 | from the leftmost position the whole flattening lies ahead |
| Trees.FromIsSuffix | bolt/cursor.cpp:164-198 | what lies at and after a position is the end of the flattening |
| Trees.BumpAdvances | bolt/cursor.cpp:167-188 | one turn of the retry loop loses and skips no entry, uses up a leaf when it meets an empty one, and fails only at the end |
| Trees.Next | bolt/cursor.cpp:164-198 | returns the first entry after the position and moves exactly past it; returns nothing exactly when none is left, and then stays put if no leaf lies to the right, else stops at the start of the last leaf |
| Trees.NextStaysAtEnd | bolt/cursor.cpp:178-182 | once it returns nothing it returns nothing again and no longer moves |
| Trees.First | bolt/cursor.cpp:25-48 | everything lies at or after the first position, which is on the first entry of the tree if there is one |
| Trees.ScanIsFlatten | bolt/cursor.cpp:25-57 | first and then next until nothing yields the in-order flattening, over any depths and empty leaves |
| Seeking.ChildForBounds | bolt/cursor.cpp:265-272 | the chosen child is the only one whose separators admit the key: none up to it is above the key, every later one is |
| Seeking.SearchCuts | bolt/cursor.cpp:239-307 | the search stops where exactly the entries not below the key lie ahead |
| Seeking.SeekIsLowerBound | bolt/cursor.cpp:200-211 | after seek the cursor is on the least entry not below the key, or on none if there is none; scanning on yields exactly the entries not below the key |
| Seeking.FlattenAscends | bolt/cursor.h:15-16 | a scan of an ordered tree returns strictly ascending keys |
| Seeking.FirstKeysOrder | bolt/cursor.cpp:265-272 | a tree that flattens to ascending keys, with the first key of each subtree as its separator, is ordered |
| Seeking.AtLeastMembers | bolt/cursor.h:54-58 | the entries a seek is to leave ahead are those whose key is not below the given one |
| Backward.LastIsFinalEntry | bolt/cursor.cpp:88-104 | `last` returns the final entry exactly when the rightmost leaf has one or the tree has none |
| Backward.LastMissesEntry | bolt/cursor.cpp:88-104 | an ordered tree with an entry for which `last` returns nothing |
| Backward.PrevUndoesNext | bolt/cursor.cpp:59-80 | the intended backward move restores the exact position before a successful next, on trees without empty leaves |
| Backward.PrevWrittenIsRightWhen | bolt/cursor.cpp:59-86 | on every tree the written backward move agrees with the intended one exactly at the first position and one past the last entry of a rightmost leaf that has one |
| Backward.PrevWrittenGoesForward | bolt/cursor.cpp:78-86 | a leaf in which the written backward move goes forward |
| Backward.WrittenPrevRepeats | bolt/cursor.cpp:59-104 | last and then the written prev, any number of times, stays on the last position, unless the tree is a single leaf with at most one entry; there the first prev empties the stack |
| Backward.ScanBackIsTail | bolt/cursor.cpp:59-104 | last and then the intended prev until nothing yields, reversed, the entries behind the last empty leaf |
| Backward.ScanBackIsReverseWhen | bolt/cursor.cpp:59-104 | that is the whole flattening reversed if and only if no leaf with entries lies left of an empty one |
| Backward.NoEmptyLeaves | bolt/cursor.cpp:106-110 | a tree without empty leaves is one whose list of leaves has no empty list |
| Buckets.NodeBehind | bolt/bucket.cpp:21-44 | a node is behind an id exactly if it is cached there, or is the root node of an inline bucket and the id is 0 |
| Buckets.PageBehind | bolt/tx.cpp:24-33 | otherwise a page is: the transaction's own before the file's, or the inline page |
| Buckets.NodeLeafMeans | bolt/cursor.cpp:114-117 | a leaf node stands for the flags, keys and values of its inodes |
| Buckets.PageLeafMeans | bolt/cursor.cpp:119-121 | a leaf page stands for the flags, keys and values of its elements |
| Buckets.NodeBranchMeans | bolt/cursor.cpp:133-134 | child i of a branch node is the tree behind the id of its inode i |
| Buckets.PageBranchMeans | bolt/cursor.cpp:133-134 | child i of a branch page is the tree behind the id of its element i |
| Buckets.TreeIsUnique | bolt/bucket.cpp:21-44 | a store stands for at most one tree |
| Buckets.CachingKeepsTree | bolt/bucket.cpp:38-43 | any mix of leaf pages and the nodes read from them stands for the same tree |
| Buckets.LoadingALeafCaches | bolt/bucket.cpp:21-44 | loading a leaf page into the node cache, or an inline page into the root node, is such a change |
| Buckets.WrittenLeafIsVertex | bolt/cursor.cpp:106-122 | a page with a written leaf shows the cursor exactly the flags, keys and values of the node's inodes |
| Buckets.WrittenBranchIsVertex | bolt/cursor.cpp:133-134 | a page with a branch image shows the cursor exactly the node's child ids and keys |
| Buckets.StoredLeafScans | bolt/cursor.cpp:25-57 | a bucket whose root is a written leaf, in a dirty page whatever the file holds, in the file or inline, scans to the flags, keys and values of its inodes |
| Strays.SizeVerdictWhen | bolt/slice.h:130-136 | from the size of a key alone: exactly when all keys of that size are below a given key, and exactly when none is |
| Strays.StopsWhen | bolt/cursor.cpp:309-313 | exactly the indices that a search among copied elements can stop at |
| Strays.SizesDecideWhen | bolt/cursor.cpp:309-313 | such a search has the one right result if and only if the sizes decide every comparison it makes |
| Strays.PicksWhen | bolt/cursor.cpp:278-293 | exactly the children that a search among copied branch elements can descend into |
| Searches.LeafPageSizes | bolt/page.cpp:48-58 | the copies of a leaf page's elements carry the sizes of its keys |
| Searches.BranchPageSizes | bolt/page.cpp:65-75 | the copies of a branch page's elements carry the sizes of its separators |
| Searches.WrittenPlacesApart | bolt/node.cpp:168-192 | on pages that `write` laid out, the copies look for their keys behind all copies and in places that do not overlap |
| Searches.CachedSearchIsExact | bolt/cursor.cpp:265-307 | over nodes the search is reliable and has one outcome |
| Searches.PossibleWhenTaken | bolt/cursor.cpp:239-314 | the paths that key sizes allow are exactly those that the search takes with some stray bytes |
| Searches.SeekReliableWhen | bolt/cursor.cpp:239-314 | on every store the search stops at the lower bound with all stray bytes if and only if it is reliable: a leaf page's key sizes decide every comparison, and every child that a branch page's sizes allow is where the key belongs and reliable itself |
| Searches.SeekStrays | bolt/cursor.cpp:308-314 | a written leaf with one key: for any key of the same size with a first byte above zero, some stray bytes make the search stop at the wrong place |
| Searches.NodesAreReliable | bolt/cursor.cpp:265-276 | on a store without pages every search is reliable |
| Searches.EmptyKeyReliable | bolt/cursor.cpp:239-314 | the search for the empty key is reliable on every store, whatever is cached |
| Stacks.BumpAtLevel | bolt/cursor.cpp:170-188 | bumping the deepest level with room and descending is one step to the right |
| Stacks.NoRoomRight | bolt/cursor.cpp:170-182 | with every level at its end there is no step to the right |
| Stacks.PrevAtLevel | bolt/cursor.cpp:62-80 | lowering the deepest positive index and descending is one step to the left |
| Stacks.EntryOnTop | bolt/cursor.cpp:106-122 | the entry under a held stack has the flags, key and value of inode `index` of the node on top, or of element `index` of the page |
| Stacks.HeldByIndices | bolt/cursor.h:105-118 | the indices determine the whole stack |
| Cursors.Cursor.PushChild | bolt/cursor.cpp:132-140 | pushes the vertex behind the id of inode or element `index` of the vertex on top |
| Cursors.Cursor.FirstDown | bolt/cursor.cpp:124-142 | the loop ends on the leftmost leaf below the top, with a held root-to-leaf stack |
| Cursors.Cursor.LastDown | bolt/cursor.cpp:144-162 | the loop ends on the rightmost leaf below the top, with a held root-to-leaf stack |
| Cursors.Cursor.KeyValue | bolt/cursor.cpp:106-122 | returns the entry under the cursor, from node or page, or nothing off the end |
| Cursors.Cursor.NextEntry | bolt/cursor.cpp:164-198 | terminates, keeps the stack a path, and moves and returns as `Trees.Next` |
| Cursors.Cursor.First | bolt/cursor.cpp:25-48 | keeps the stack a path and returns key and value of the first entry of the flattening, without the value if its bucket flag is set |
| Cursors.Cursor.Next | bolt/cursor.cpp:50-57 | keeps the stack a path and returns key and value of the entry after the old position, without the value if its bucket flag is set |
| Cursors.Cursor.Last | bolt/cursor.cpp:88-104 | keeps the stack a path and returns key and value of the last entry of the rightmost leaf, without the value if its bucket flag is set |
| Cursors.Cursor.Prev | bolt/cursor.cpp:59-86 | with any index above zero lands where `last` does, else empties the stack; an empty stack yields an empty pair |
| Cursors.Cursor.PrevIntended | bolt/cursor.cpp:62-80 | the commented move: one step to the left, or an empty stack at the beginning |
| Cursors.Cursor.NextThenPrev | bolt/cursor.cpp:50-86 | on trees without empty leaves a successful next and the intended prev restore the very same stack |
| Cursors.Cursor.Search | bolt/cursor.cpp:239-314 | pushes exactly the path that the given stray bytes lead to |
| Cursors.Cursor.SeekStop | bolt/cursor.cpp:221-237 | stops where the given stray bytes lead to; where the search is reliable, exactly the entries not below the key lie ahead |
| Cursors.Cursor.Seek | bolt/cursor.cpp:200-237 | returns an empty pair always; keeps the stack a path and stands on the first entry ahead of where the search stopped; where the search is reliable, exactly the entries not below the key lie ahead |
| Cursors.Cursor.ScanAll | bolt/cursor.cpp:25-57 | a whole scan with the real stack yields the flattening |
| Cursors.ScanStoredLeaf | bolt/cursor.cpp:25-57 | a cursor over a written root leaf, in a dirty page whatever the file holds, in the file or inline, scans the flags, keys and values of its inodes |
| Cursors.Cursor.ScanFrom | bolt/cursor.cpp:164-237 | a scan from a key yields everything ahead of where the search stopped; where the search is reliable, exactly the entries not below the key, in ascending order |
| Cursors.Cursor.ScanFromEmpty | bolt/cursor.cpp:164-237 | a scan from the empty key yields the flattening on every store |
| Cursors.Cursor.ScanBack | bolt/cursor.cpp:59-104 | with the real stack, last and the intended prev yield the entries behind the last empty leaf, reversed; all entries, each at its mirrored place, exactly when no leaf with entries lies left of an empty one |
| FreeLists.InterleavingKeepsPages | bolt/freelist.cpp:17-19 | every interleaving of two runs keeps all pages with multiplicity |
| FreeLists.MergeSortedWhen | bolt/freelist.cpp:17-19 | whatever interleaving a merge makes of unsorted runs, it comes out sorted if and only if both runs were sorted |
| FreeLists.ReleaseConserves | bolt/freelist.cpp:5-20 | free plus pending pages are the same multiset before and after a release |
| FreeLists.ReleaseUnsorted | bolt/freelist.cpp:5-20 | two transactions whose released pages leave the list unsorted, whatever was free before and however the merge goes |
| FreeLists.LoadCompleteWhen | bolt/freelist.cpp:22-39 | all stored ids are loaded if and only if the page does not overflow or stores none; otherwise exactly the last is missing |
| FreeLists.FreeList.Release | bolt/freelist.cpp:5-20 | a page is free afterwards exactly if it was or was pending under a transaction up to the threshold; the other pending entries stay; keeps the bag and the lookup set, and stays sorted exactly when the released pages ascend |
| FreeLists.FreeList.Reindex | bolt/freelist.cpp:45-55 | the lookup set becomes exactly the free and pending pages |
| FreeLists.FreeList.Read | bolt/freelist.cpp:22-43 | adds exactly the announced words, in the overflow case the words from the second up to the announced count, sorted, and rebuilds the lookup set |
| Protocol.OldestReader | bolt/db.cpp:228-233 | a lower bound of all tracked readers that one of them attains, or the largest id |
| Protocol.StartWriteFrees | bolt/db.cpp:203-239 | a starting writer frees exactly the pages of transactions below the largest id and below every tracked reader; the rest stays set aside as it is |
| Protocol.CommitPublishes | bolt/tx.h:93-96 | the promised commit publishes the writer's id, ends the writer and leaves pages and readers alone |
| Protocol.FreePageSetsAside | bolt/freelist.h:38-40 | the promised free sets a page aside under its writer and makes nothing free |
| Protocol.AllocateTakes | bolt/freelist.h:34-36 | the promised allocation takes one free page and leaves the pending ones alone |
| Protocol.ScribbleOverwrites | bolt/tx.cpp:134-136 | only the record of a closed reader can show another id |
| Protocol.SingleWriter | bolt/db.cpp:161-239 | over every run the writer lock is held exactly while a writable transaction is open, at most one is, and each unlocks at most once |
| Snapshots.ReleaseSafe | bolt/db.cpp:227-236 | a release below every open reader frees no page that one of them may see |
| Snapshots.ApplySafe | bolt/db.cpp:168-239 | every step keeps the snapshot, page and lock invariants |
| Snapshots.SnapshotSafety | bolt/db.cpp:168-239 | over every run in which writers that roll back leave no page set aside, and whatever the freed records of closed readers hold: a page freed by writer t is not free while a reader with a smaller id is open, and the lookup set is exact |
| Snapshots.StubRollbackSafeWhen | bolt/freelist.cpp:57-58 | if closed readers keep their ids: every run after an empty rollback in which later writers that give up leave nothing set aside is safe if and only if this writer had set no page aside or a reader that is already closed is still tracked; in the latter case later rollbacks may leave pages set aside too |
| Snapshots.StubRollbackSafeAnyMemory | bolt/tx.cpp:97-139 | if the freed records of closed readers can hold anything: every run after an empty rollback in which later writers that give up leave nothing set aside is safe if and only if this writer had set no page aside |
| Snapshots.AnchoredRunSafe | bolt/db.cpp:227-236 | with a tracked reader that is closed, or with no reader ever forgotten, every run is safe whatever rollbacks do to pages |
| Snapshots.WrittenCodeSafeWhen | bolt/tx.cpp:97-139 | for the empty `rollback` and `remove_tx` as they are, closed readers keeping their ids: in a writable database with a page left to free, every run within the counter's range is safe if and only if some reader has begun already |
| Snapshots.GivingUpHappens | bolt/db.cpp:203-239 | in any fresh database a writer comes to have a page set aside in two steps |
| Snapshots.FreshDatabaseUnsafe | bolt/tx.cpp:97-139 | from any fresh database the code as written has a run that frees a page which an open reader may see |
| Snapshots.HonestMeans | bolt/db.cpp:168-239 | the runs spoken of leave out only a writer that begins at the last id or gives up with pages set aside |
| Snapshots.RunConditions | bolt/db.cpp:168-239 | the conditions on runs, step by step |
| Snapshots.ReachedGoesOn | bolt/db.cpp:168-239 | every such run from a fresh database ends in a state that the results on empty rollbacks speak of |
| Snapshots.QuietRunTracked | bolt/db.cpp:168-239 | as long as closed readers keep their ids, every tracked id is one that has committed |
| Snapshots.GuardNeeded | bolt/db.cpp:234-236 | with a reader of id 0 the guard releases nothing, and the wrapped threshold would break safety |
| Database.Tx.constructor | bolt/tx.cpp:9-22 | a reader takes the committed id, a writer the next one |
| Database.DB.Begin | bolt/db.cpp:161-166 | is the reader's or the writer's begin step |
| Database.DB.BeginTx | bolt/db.cpp:168-201 | tracks a new reader with the committed id, last in the list, or refuses without change |
| Database.DB.OldestTxid | bolt/db.cpp:228-233 | the loop computes the oldest tracked snapshot |
| Database.DB.BeginRwTx | bolt/db.cpp:203-239 | takes the lock and starts the writer under the next id; a page is free afterwards exactly if it was or was pending below the largest id and below every tracked reader, and the rest stays; refuses or waits without change |
| Database.DB.Close | bolt/tx.cpp:108-139 | closes the transaction and, for a writer, clears it and gives the lock back once |
| Database.DB.Rollback | bolt/tx.cpp:89-139 | closes the transaction, so that a second call is refused; a writer gives the lock back once, a reader is no longer tracked and a writer's pages no longer set aside if the two empty functions keep their promises; a closed one is refused without change |

## Left out

- Files, `mmap`, `flock`, page pool, statistics and the meta page checksum: system calls and bookkeeping.
- `Node::split`, `spill`, `rebalance` and `FreeList::write`: declared without a body.
- `Cursor::node` and `deleteCurrent`: they rest on `Bucket::node`, which returns null.
- `Slice::starts_with`, `ends_with`, `remove_prefix`, `remove_suffix`, the `SliceParts` constructor: these would only add easy members.
- Slices are byte sequences: that a node's slices point into page memory, and that a write could overwrite its own source, is not modelled.
- Integers are stored low byte first, as on the usual targets; alignment and the compiler's layout of `Page` itself are not modelled, its data pointer is a position in a buffer.
- Snapshots.SnapshotSafety: holds for runs in which the transaction counter does not wrap at 2^64 and writers that give up leave no page set aside; without the latter it is false, and StubRollbackSafeWhen, StubRollbackSafeAnyMemory and WrittenCodeSafeWhen say exactly when it holds.
- Snapshots.StubRollbackSafeWhen: is about one rollback that leaves pages set aside; runs in which any number of them do so are the subject of AnchoredRunSafe and WrittenCodeSafeWhen.
- Snapshots.StubRollbackSafeAnyMemory: likewise is about one such rollback.
- Snapshots.WrittenCodeSafeWhen: a commit is the step that the header promises, since the written one does nothing.
- Page allocation, page freeing and a working commit have no code; they are steps taken from the header comments. A rollback does not return pages that the writer had allocated, as the empty `reload` does not.
- The lock on the memory map and the statistics lock are not modelled; each begin and each rollback is one step. The source holds the meta or the writer lock throughout a begin and a writer's rollback; a reader's rollback holds neither (bolt/tx.cpp:97-139), so its races with other callers are not modelled. The statistics update after a begin is left out.
- `Buckets.Represents` requires a readable key for each branch page element and a page type that `search` accepts, also for moves that do not look at them.
- Database.Tx.constructor: the id of a transaction object never changes; that the freed meta page of a closed reader may hold another id is a step of the protocol only.
- Cursors.Cursor.Search: the stray bytes of different elements are independent. For pages as `write` lays them out their places do not overlap and lie behind the copies; for other pages they may, and fewer outcomes are then possible.
- The check that the transaction is open, at the start of each cursor move, is an `assert` in the source and not modelled; a cursor is used while its transaction is open.
