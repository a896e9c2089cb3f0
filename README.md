# html-cache storage engine in Dafny

A model of the storage engine of html-cache, a disk-persistable cache of
compressed web pages keyed by the SHA-256 digest of their URL. It covers:

- **`byte_cache` / `html_cache`**: one store (shard). It keeps two parallel
  lists: `index` holds the keys in strictly ascending byte order, and
  `content` holds the compressed payloads at the same positions.
  - `_find_index` binary-searches the index.
  - `is_cached`, `cache` (upsert) and `retrieve` are built on that search.
  - `save` writes a flat binary layout, which `load` and `load_index` read back.
  - `split` cuts a store in half at `n // 2`.
- **`cache_tree_node`**: a binary shard tree. An internal node routes a key
  left when it is below the node's search key and right otherwise. A leaf
  delegates to its store. `split` turns a leaf into an internal node over the
  two halves of its store, and the greater half's first key becomes the
  search key.

The two Python store classes run the same algorithm. `html_cache.py` is the
older copy without `load_index` and `split`, and both share one model.

Modules:

| module | file | contents |
|---|---|---|
| `Wrappers` | wrappers.dfy | `Option` |
| `Bytes` | bytes.dfy | `byte`, the 5-byte unsigned integers of the file layout in either byte order, and their round trip |
| `Keys` | keys.dfy | Python's `bytes` `<` as `Less`, proved to be a strict total order; `StrictlySorted` |
| `ValueCodec` | value_codec.dfy | the compressor as a pair of functions, and `Inverse` (decompress undoes compress) |
| `ContentStore` | content_store.dfy | the two columns as a `Store` value, with `Rank` (the insertion point), `Upsert`, `Lookup`, the abstract map `AsMap` and `SplitStore` |
| `Format` | format.dfy | `Serialize`, `Parse` and `ParseIndex` over `seq<byte>`; round trip, length, rejection of truncated input |
| `ByteCache` | byte_cache.dfy | the class `ByteCache`: fields `index` and `content` (as `seq`s) updated in place by its methods; the serialization and parsing loops |
| `ShardTree` | shard_tree.dfy | tree nodes as a datatype; `Find`, `Insert`, `SplitLeaf`; the routing invariant `TreeValid` |
| `ShardTreeDesign` | shard_tree.dfy | an insert that splits an over-full leaf, which the code never wires up (see below) |

Each state-changing method of the class, and `Retrieve` and `Save`, is
proved against a specification function in `ContentStore` or `Format`.
`FindIndex` and `IsCached` state their results directly over `Less` and
membership in the index. The lemmas about those functions carry the
properties:

- the store's abstract map changes by exactly one binding on `cache`;
- `load` inverts `save`;
- split halves partition the store;
- `find` sees what `insert` stored.

## Model

| member | source | states |
|---|---|---|
| `Keys.LessIrreflexive` | Code/byte_cache.py:41-46 | no key is below itself, so the search's `<`/`>`/equal branches are exclusive |
| `Keys.LessAsymmetric` | Code/byte_cache.py:41-46 | if a < b then not b < a |
| `Keys.LessTransitive` | Code/byte_cache.py:41-46 | byte-string `<` is transitive, which the binary search relies on to discard half the range |
| `Keys.LessTotal` | Code/byte_cache.py:41-46 | any two keys are equal or ordered one way, so the three-way branch of the search is exhaustive |
| `Keys.LessCommonPrefix` | Code/byte_cache.py:41 | a common prefix does not change how two byte strings compare |
| `Keys.SortedDistinct` | Code/byte_cache.py:6 | a strictly ascending index holds each key at most once |
| `Bytes.ReverseReverse` | Code/byte_cache.py:17 | reversing the bytes twice is the identity, so big-endian is the mirror of little-endian |
| `Bytes.FromToLittle` | Code/byte_cache.py:88 | decoding the little-endian bytes of x < 256^w gives back x |
| `Bytes.UintRoundTrip` | Code/byte_cache.py:88-102 | `int.from_bytes(x.to_bytes(w, order), order) == x` for every x < 256^w and either byte order |
| `Bytes.Pow256IntWidth` | Code/byte_cache.py:16 | a 5-byte integer holds values below 2^40 |
| `ContentStore.Rank` | html_cache.py:29-46 | the insertion point: every key before it is below k, and the key at it (if any) is not below k |
| `ContentStore.RankIsInsertionPoint` | html_cache.py:29-46 | the insertion point is unique: any position with that property equals `Rank` |
| `ContentStore.RankSorted` | html_cache.py:29-46 | on a sorted index every key after the insertion point is above k, and k is present iff it sits at the insertion point |
| `ContentStore.Slice` | Code/byte_cache.py:135-137 | taking the same range of both columns keeps them aligned, with hi - lo entries |
| `ContentStore.InsertAt` | html_cache.py:64-65 | inserting at one position of both columns keeps them aligned and grows them by one |
| `ContentStore.Upsert` | html_cache.py:56-65 | upsert keeps the columns aligned |
| `ContentStore.AsMapKeys` | html_cache.py:10-11 | the store's map has exactly the keys of `index` |
| `ContentStore.AsMapAt` | html_cache.py:10-11 | in a sorted store the map binds each `index[i]` to `content[i]` |
| `ContentStore.AsMapCat` | Code/byte_cache.py:134-138 | the map of two concatenated stores is the union of their maps |
| `ContentStore.AsMapOverwrite` | html_cache.py:60-61 | overwriting `content[p]` rebinds only `index[p]` in the map |
| `ContentStore.AsMapInsert` | html_cache.py:62-65 | inserting (k, v) at one position of both columns adds exactly the binding k := v |
| `ContentStore.LookupIsMapGet` | html_cache.py:68-75 | lookup returns the value bound to the key, and `None` exactly when the key is absent |
| `ContentStore.InsertSorted` | html_cache.py:62-65 | inserting a key between the smaller and the larger ones keeps the index strictly ascending |
| `ContentStore.UpsertSpec` | html_cache.py:56-65 | upsert keeps the store valid (sorted, aligned, 32-byte keys), and its map becomes the old map with k := v |
| `ContentStore.UpsertPresent` | html_cache.py:59-61 | upsert of a present key replaces only that content entry: the index and every other entry are unchanged |
| `ContentStore.UpsertAbsent` | html_cache.py:62-65 | upsert of an absent key inserts it at one position in both columns, the count grows by one, and old entries keep their order |
| `ContentStore.UpsertTwice` | Code/byte_cache.py:61-63 | a second upsert of the same key leaves one entry with the new value: it equals a single upsert of that value |
| `ContentStore.SliceValid` | Code/byte_cache.py:135-138 | a range of a valid store is valid |
| `ContentStore.CutDisjoint` | Code/byte_cache.py:134-138 | a key before the midpoint does not occur after it |
| `ContentStore.SplitStoreSpec` | Code/byte_cache.py:128-142 | the halves concatenate to the original in both columns, the lesser has n // 2 entries, both are valid, and every lesser key is below every greater key |
| `ContentStore.SplitStoreMaps` | Code/byte_cache.py:128-142 | the halves' maps have disjoint keys and together are the original map |
| `ContentStore.SplitAsWrittenLosesValue` | Code/byte_cache.py:138 | the split as written, on a one-entry store, makes the greater half return the key in place of the stored value |
| `Format.ConcatSnoc` | html_cache.py:89-90 | writing one more key appends it to the output |
| `Format.Record` | html_cache.py:91-95 | a framed value is 5 bytes longer than the value |
| `Format.RecordsSnoc` | html_cache.py:91-95 | writing one more record appends its frame to the output |
| `Format.ReadUint` | Code/byte_cache.py:101-102 | reading a 5-byte integer succeeds exactly when 5 bytes remain, and consumes exactly them |
| `Format.ParseKeysConcat` | Code/byte_cache.py:103-105 | reading n keys from the bytes of n 32-byte keys returns them and leaves the rest |
| `Format.ParseRecordsRecords` | Code/byte_cache.py:106-110 | reading n records from n framed values returns the values and leaves the rest |
| `Format.ParseSerialize` | Code/byte_cache.py:79-110 | `load` of `save`'s output gives back the index and the content exactly |
| `Format.ParseIndexSerialize` | Code/byte_cache.py:113-119 | `load_index` of `save`'s output gives back the index |
| `Format.ConcatLength` | html_cache.py:89-90 | n keys take 32n bytes |
| `Format.RecordsLength` | html_cache.py:91-95 | the records take the sum of 5 + len(content_i) bytes |
| `Format.SerializeLength` | html_cache.py:84-95 | the saved file is 5 + 32n + the sum of (5 + len(content_i)) bytes long |
| `Format.ParseKeysTruncated` | Code/byte_cache.py:103-104 | a cut-off key area does not parse |
| `Format.ParseRecordsTruncated` | Code/byte_cache.py:106-109 | a cut-off record area does not parse |
| `Format.ParseRejectsTruncated` | Code/byte_cache.py:99-110 | every proper prefix of a saved file is rejected |
| `ByteCache.WriteKeys` | Code/byte_cache.py:90-91 | the key-writing loop emits the concatenation of the keys |
| `ByteCache.WriteRecords` | Code/byte_cache.py:92-96 | the record-writing loop succeeds exactly when every length is below 2^40, and then emits the framed records |
| `ByteCache.ReadKeys` | Code/byte_cache.py:103-105 | the key-reading loop computes `ParseKeys` |
| `ByteCache.ReadRecords` | Code/byte_cache.py:106-110 | the record-reading loop computes `ParseRecords` |
| `ByteCache.ByteCache.constructor` | Code/byte_cache.py:9-11 | a new store is empty and valid |
| `ByteCache.ByteCache.FindIndex` | Code/byte_cache.py:31-48 | empty index gives (0, false); found iff the key is in the index, and then at idx; otherwise idx <= n with all keys before idx smaller and all from idx on larger |
| `ByteCache.ByteCache.IsCached` | Code/byte_cache.py:51-54 | true exactly when the key occurs in the index |
| `ByteCache.ByteCache.Cache` | Code/byte_cache.py:58-66 | keeps the store valid; the new state is the upsert of the compressed payload, so the map gains exactly key := compress(payload) |
| `ByteCache.ByteCache.Retrieve` | Code/byte_cache.py:69-76 | `None` exactly when the key is absent, otherwise the decompressed stored value; no state changes |
| `ByteCache.ByteCache.Save` | Code/byte_cache.py:85-96 | returns the serialized store, or `None` when a count or a length does not fit 5 bytes |
| `ByteCache.ByteCache.Load` | Code/byte_cache.py:99-110 | succeeds exactly when the bytes parse; then appends the parsed keys and values to the two lists, otherwise changes nothing |
| `ByteCache.ByteCache.LoadIndex` | Code/byte_cache.py:113-119 | succeeds exactly when the index part parses, then appends the keys; `content` is untouched |
| `ByteCache.ByteCache.Split` | Code/byte_cache.py:130-142 | two fresh stores holding the two halves of `SplitStore`, both valid |
| `ShardTree.TreeValidAligned` | Code/cache_tree.py:5-7 | a tree satisfying the routing invariant has aligned leaves |
| `ShardTree.ContentsKeys` | Code/cache_tree.py:5-7 | the tree's map has exactly the keys held in its leaves |
| `ShardTree.Insert` | Code/cache_tree.py:10-17 | insertion keeps every leaf aligned |
| `ShardTree.SplitLeaf` | Code/cache_tree.py:28-41 | splitting a non-empty aligned leaf yields aligned leaves |
| `ShardTree.FindSpec` | Code/cache_tree.py:19-26 | on a tree with the routing invariant, find returns the decompressed value the tree's map binds to the key, or `None` when it binds none |
| `ShardTree.DescendLeft` | Code/cache_tree.py:12-13 | replacing the left child by an updated one with key < search key keeps the invariant and updates the node's map |
| `ShardTree.DescendRight` | Code/cache_tree.py:14-15 | replacing the right child by an updated one with key >= search key keeps the invariant and updates the node's map |
| `ShardTree.InsertSpec` | Code/cache_tree.py:10-17 | insert keeps the routing invariant and the tree's map becomes the old map with key := compress(value) |
| `ShardTree.FindAfterInsert` | Code/cache_tree.py:10-26 | when decompress inverts compress, find after insert of (k, v) returns v |
| `ShardTree.FindAfterInsertOther` | Code/cache_tree.py:10-26 | insert of k does not change what find returns for any other key |
| `ShardTree.CutRoutes` | Code/cache_tree.py:36-38 | in a sorted index, every key before position m is below `index[m]` and every key from m on is not |
| `ShardTree.SplitLeafRoutes` | Code/cache_tree.py:5-6 | the node built by split satisfies the routing invariant |
| `ShardTree.SplitLeafSpec` | Code/cache_tree.py:28-41 | split gives an internal node over two leaves whose search key is the greater leaf's first key; the leaves concatenate to the old store, the invariant holds, and no key or value is lost or duplicated |
| `ShardTree.SplitLeafPreservesFind` | Code/cache_tree.py:28-41 | find on the split node returns what it returned on the leaf, for every key |
| `ShardTreeDesign.InsertSplitting` | Code/cache_tree.py:47 | the threshold-splitting insert keeps every leaf aligned |
| `ShardTreeDesign.InsertSplittingSpec` | Code/cache_tree.py:47 | the threshold-splitting insert keeps the routing invariant and updates the tree's map by exactly key := compress(value) |
| `ShardTreeDesign.InsertSplittingBounded` | Code/cache_tree.py:47 | with a positive threshold, no leaf ever holds more than threshold entries |
| `ShardTreeDesign.ScenarioSecondInsert` | Code/cache_tree.py:10-17 | a second, larger key lands after the first in the same leaf |
| `ShardTreeDesign.ScenarioThirdInsert` | Code/byte_cache.py:134-138 | a third entry over threshold 2 splits at 3 // 2 = 1: lesser {A}, greater {B, C}, search key B |
| `ShardTreeDesign.ScenarioFinds` | Code/cache_tree.py:19-26 | on that tree A, B and C are found with their values and a larger key D is not |
| `ShardTreeDesign.ThreeKeyScenario` | Code/cache_tree.py:10-41 | inserting three ascending keys into an empty leaf with threshold 2 builds that tree |
| `ShardTreeDesign.SmallKeysAscend` | Code/cache_tree.py:12 | 0x00..01 < 0x00..02 < 0x00..03 < 0x00..04, so these keys meet the scenario's requirement |

## Left out

- URL hashing (`_hash_url`, Code/byte_cache.py:20-21) and its UTF-8 encoding: SHA-256 is a foreign library. The model takes 32-byte keys directly.
- brotli / blosc2 compression (Code/byte_cache.py:23-27, html_cache.py:21-25): foreign codecs. They are the `ValueCodec.Codec` parameter. Properties that need decompression to undo compression take `Inverse(codec)` as a hypothesis.
- File handles and paths (`open`, `read`, `write`, `cache_file`, `filepath`): I/O. `save` returns the file's bytes and `load` / `load_index` take them.
- `sys.byteorder`: host state. The byte order is an explicit `ByteOrder` parameter.
- `offload` and the `del` teardown (Code/byte_cache.py:123-126, Code/cache_tree.py:32-34): memory management. `ByteCache.Split` leaves the original store untouched instead of deleting its lists.
- The `cache_tree` class (Code/cache_tree.py:44-51): it holds configuration only, and no code uses it; in particular `split_threshold` (:47) is never read, so the source never splits on insert. `ShardTreeDesign.InsertSplitting` is a design-only insert that splits the leaf it has just written once that leaf holds more than the threshold. `ShardTreeDesign.ThreeKeyScenario` shows what it does with threshold 2. Inserting A < B < C into an empty leaf splits at `3 // 2 = 1` (Code/byte_cache.py:134). The lesser leaf then holds {A}, the greater holds {B, C}, and the search key is B.
- Shard file naming: the source has no code for it.
- ShardTree: tree nodes are values, not objects. In the source, `cache_tree_node.split` rewrites the node's fields in place and `insert` reaches a store that is mutated in place. The model returns the new node instead, so aliasing of nodes or stores between trees is not captured.
- Format.Parse: rejects input that ends early. The source's `f.read` returns short or empty chunks at end of file, and `int.from_bytes(b'')` is 0, so truncated files load silently with short keys and values.
- ByteCache.ByteCache.Load: all-or-nothing. On bytes that do not parse it changes nothing, whereas the source would have appended whatever it had read before the file ran out. As in the source, a successful load appends to the existing lists rather than replacing them. `Format.Parse` accepts any 32-byte strings as keys, in any order. So a load into a non-empty store, a second load of the same file, or a load of a file `save` did not write can leave `index` unsorted or with duplicates, and the store is then not `Valid()`. On that state only `Save`, `Load` and `LoadIndex` are modelled. The source still runs its other operations there:
  - `_find_index` (Code/byte_cache.py:39-48) can miss a present key. With index [B, A] and A < B, a search for A takes m = 0, sees B > A, sets R = -1 and returns (0, False).
  - `is_cached(A)` (:51-54) is then False for a key that is present.
  - `cache(A, v)` (:64-66) inserts a second A at position 0.
- ByteCache.ByteCache.Save: returns `None` when the entry count or a content length is 2^40 or more. In the source, `int.to_bytes` raises `OverflowError` (Code/byte_cache.py:88, :94). In both cases, `open(..., 'wb+')` at Code/byte_cache.py:86 has already emptied the previous shard file. An oversized count raises before anything is written; an oversized content length raises after the count, the keys and the earlier records have been written.
- ByteCache.ByteCache.LoadIndex: after an index-only load, `content` is shorter than `index`, so the store is no longer `Valid()`. Only `IsCached` and `FindIndex` are modelled on that state, since they need just a sorted index. The source still allows the other calls there:
  - `retrieve` returns `None` for an absent key and raises `IndexError` at Code/byte_cache.py:74 for a present one;
  - `cache` raises `IndexError` at :63 for a present key;
  - `cache` of an absent key inserts into the shorter `content` at a position Python clamps to its end (:66), so the two lists no longer line up.
- Trailing bytes after the last record are ignored by `Format.Parse`, as they are by the source.

## Findings

| source | as written | input that shows it | evidently intended | confidence | as-written member | corrected member |
|---|---|---|---|---|---|---|
| Code/byte_cache.py:138 | `greater.content = self.index[midpoint:]` fills the greater half's values with its keys | a one-entry store {k: [7]}: after split, the greater half returns k for k instead of [7] | `greater.content = self.content[midpoint:]`, as on line 136 for the lesser half | not executed | `ContentStore.SplitAsWritten` (`ContentStore.SplitAsWrittenLosesValue`) | `ContentStore.SplitStore` (`ContentStore.SplitStoreSpec`, `ContentStore.SplitStoreMaps`) |

Other defects in the source. The model follows the evident intent in each
case:

- Code/byte_cache.py:131-132 constructs `html_cache()`, a name that module
  does not define. Every call of `split` would fail with `NameError`. The
  model builds two fresh `ByteCache` objects.
- Code/cache_tree.py:17 and :26 pass the raw key into `cache` and
  `retrieve`, which hash their argument as a URL (`url.encode`). A `bytes`
  key has no `encode` method, and a string key would be hashed a second
  time. The model routes and stores by the key itself.
- Code/cache_tree.py:40-41 assigns the two stores, not two leaf nodes, as
  children, so a later `insert` or `find` reaching them fails. The model
  makes each half a `Leaf`.
- Code/cache_tree.py:32-33 deletes `index` and `content` from a store that
  `split` has already emptied through `offload` (Code/byte_cache.py:140).
  This would fail with `AttributeError`. The model has no teardown.
- Code/cache_tree.py:11 and :20 test `if self.search_key:`, which treats an
  empty search key as a leaf. With 32-byte keys a search key is never empty,
  so the model's `Leaf` / `Internal` tag gives the same routing.
