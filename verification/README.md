# Visit cache and dense tensor builder, modelled in Dafny

This project models two pieces of a search engine's C++ core and proves
properties of them.

**The document store's visit cache** (`visitcache.cpp`). A visit asks for a
batch of document ids. The cache keys a batch by its ids in ascending order
(`KeySet`). It caches the documents' bytes packed one after another
(`BlobSet`), with their positions, and compressed as a whole
(`CompressedBlobSet`). On a miss the backing store is visited. A
`VisitCollector` appends every non-empty blob it is handed, and the packing
is compressed. The cache never holds two batches that share a document id. A
reverse index records which batch each id belongs to:
- `_lid2Id` maps an id to its batch's first (smallest) id;
- `_id2KeySet` maps that first id to the batch.

Before a new batch is read, `readSet` invalidates every live batch that shares
an id with it. `removeKey` drops the batch holding a given id.

**The dense tensor builder** (`direct_dense_tensor_builder.cpp`). It
allocates one cell per point of the tensor: the product of the dimension
sizes. It writes a cell at the row-major offset of its coordinates. All of
this arithmetic is on `size_t`.

Modules, one per file:
- `KeySets` (`keyset.dfy`)
- `BlobSets` (`blobset.dfy`)
- `CompressedBlobSets` (`compressed_blobset.dfy`)
- `BackingStores` (`backing_store.dfy`)
- `VisitCaches` (`visit_cache.dfy`)
- `DenseTensorBuilder` (`dense_tensor_builder.dfy`)

Modelling choices:
- Document ids are `uint32_t` values, and bytes are 0..255.
- `size_t` is an integer below 2^64. The product and address loops reduce
  modulo 2^64 after every `*=` and `+=`, as the C++ does.
- `std::sort` is an insertion sort. It is proved to give a sorted permutation,
  and the sorted result is proved unique.
- `std::includes` is its merge walk. On sorted inputs it is proved to be
  multiset inclusion.
- The compression library is a pair of function values (`Codec`). The
  property that decompression inverts compression is a hypothesis,
  `RoundTrips(codec)`, stated on the lemmas that need it.
- The backing store's `read` is I/O. It becomes a parameter: the sequence of
  `(lid, bytes)` visits the store delivered, in its order.
- The generic bounded cache that `VisitCache::Cache` derives from is not part
  of this model. Only its live contents (`entries`) and the three operations
  the core calls are modelled: the exact-hit test, `invalidate` (erase, then
  `onRemove`) and `read` (hit, or fetch, insert when found, then `onInsert`).
- The cache's invariant is `Indexed`. Every live batch is non-empty and
  sorted and holds a non-empty value. The two maps mirror the live batches
  exactly. `NoOverlap` derives the "no shared id" property from it.
- Tensor cells are `real`; `double` values are only stored.

## Model

| member | source | states |
|---|---|---|
| KeySets.FromLid | searchlib/src/vespa/searchlib/docstore/visitcache.cpp:15-19 | the single-id key is sorted and holds exactly that id, once |
| KeySets.FromLids | searchlib/src/vespa/searchlib/docstore/visitcache.cpp:21-25 | the key built from a list holds exactly the listed ids (same multiset and length) in ascending order; it is empty iff the list is |
| KeySets.SortAscending | searchlib/src/vespa/searchlib/docstore/visitcache.cpp:24 | the sort's result is sorted and a permutation of its input |
| KeySets.FromLidIsFromLids | searchlib/src/vespa/searchlib/docstore/visitcache.cpp:15-25 | the single-id key equals the key built from the one-element list, and its front is that id |
| KeySets.SortedUnique | searchlib/src/vespa/searchlib/docstore/visitcache.cpp:21-25 | two sorted sequences with the same elements are equal |
| KeySets.FromLidsIgnoresOrder | searchlib/src/vespa/searchlib/docstore/visitcache.cpp:21-25 | any two orderings of the same ids build the same key |
| KeySets.KeySet.Front | searchlib/src/vespa/searchlib/docstore/visitcache.cpp:217-219 | the first id is an id of the key and, for a sorted key, its minimum |
| KeySets.Includes | searchlib/src/vespa/searchlib/docstore/visitcache.cpp:27-30 | for any inputs, a successful merge walk means every id of the second range occurs in the first at least as often (the converse on sorted ranges is `IncludesIsMultisetInclusion`) |
| KeySets.KeySet.Contains | searchlib/src/vespa/searchlib/docstore/visitcache.cpp:27-30 | if `contains(rhs)` holds, `this` holds every id of `rhs` at least as often as `rhs` does |
| KeySets.IncludesIsMultisetInclusion | searchlib/src/vespa/searchlib/docstore/visitcache.cpp:27-30 | on sorted ranges, std::includes holds iff the second range's multiset is contained in the first's, in both directions |
| KeySets.ContainsIffSuperset | searchlib/src/vespa/searchlib/docstore/visitcache.cpp:27-30 | for keys without repeated ids, `contains(rhs)` holds iff every id of `rhs` is an id of `this` |
| BlobSets.BufferSize | searchlib/src/vespa/searchlib/docstore/visitcache.cpp:39-41 | getBufferSize: the end of the last position, 0 without positions; `ContiguousLayout` proves it is the sum of the sizes in the layout append builds |
| BlobSets.Lookup | searchlib/src/vespa/searchlib/docstore/visitcache.cpp:57-68 | what `get(lid)` returns: the bytes at the first position for the id, or the empty view; `LookupFirst` and `LookupNone` state both cases without reference to the scan |
| BlobSets.LookupFirst | searchlib/src/vespa/searchlib/docstore/visitcache.cpp:57-68 | when position j is the first with the id, `get` returns exactly the bytes that position describes |
| BlobSets.LookupNone | searchlib/src/vespa/searchlib/docstore/visitcache.cpp:57-68 | with no position for the id, `get` returns the empty view |
| BlobSets.FirstMatch | searchlib/src/vespa/searchlib/docstore/visitcache.cpp:57-68 | the index the scan stops at: its position has the requested id and no earlier position does, or it is the table length when none matches |
| BlobSets.ContiguousLayout | searchlib/src/vespa/searchlib/docstore/visitcache.cpp:39-41 | in the layout append builds, the buffer end is the sum of all sizes and every `offset + size` is within it |
| BlobSets.AppendKeepsLayout | searchlib/src/vespa/searchlib/docstore/visitcache.cpp:51-55 | appending keeps positions contiguous and the buffer exactly as long as the table says |
| BlobSets.AppendThenLookup | searchlib/src/vespa/searchlib/docstore/visitcache.cpp:51-68 | after `append(lid, blob)`, `get` of an id found before gives its old bytes, `get(lid)` of a fresh lid gives exactly `blob`, and any other id gives nothing |
| BlobSets.PackedLayout | searchlib/src/vespa/searchlib/docstore/visitcache.cpp:51-55 | appending a list of blobs to an empty set gives one position per blob, in order, with its id and size, contiguous and matching the buffer length |
| BlobSets.PackedLookup | searchlib/src/vespa/searchlib/docstore/visitcache.cpp:51-68 | on a packed set, `get(lid)` returns the bytes of the first blob appended for `lid` |
| BlobSets.PackedLookupAbsent | searchlib/src/vespa/searchlib/docstore/visitcache.cpp:57-68 | on a packed set, `get` of an id never appended returns the empty view |
| BlobSets.BlobSet.constructor | searchlib/src/vespa/searchlib/docstore/visitcache.cpp:32-35 | a new set has no positions and an empty buffer |
| BlobSets.BlobSet.FromParts | searchlib/src/vespa/searchlib/docstore/visitcache.cpp:45-49 | the set adopts the table and the first getBufferSize(positions) bytes of the buffer |
| BlobSets.BlobSet.Append | searchlib/src/vespa/searchlib/docstore/visitcache.cpp:51-55 | the table gains `(lid, old end, size)`, the buffer gains exactly the blob's bytes, and the layout invariant is kept |
| BlobSets.BlobSet.Get | searchlib/src/vespa/searchlib/docstore/visitcache.cpp:57-68 | the scan returns the bytes of the first matching position, or the empty view |
| CompressedBlobSets.DefaultCompressedBlobSet | searchlib/src/vespa/searchlib/docstore/visitcache.cpp:70-75 | the default value is empty |
| CompressedBlobSets.CompressedBlobSet.Empty | searchlib/src/vespa/searchlib/docstore/visitcache.cpp:134 | empty(), as `read` tests it, is "no positions" (its definition is in a header that is not part of this model); `Compress`, `DefaultCompressedBlobSet` and `BackingStore.Read` relate it to their inputs |
| CompressedBlobSets.Compress | searchlib/src/vespa/searchlib/docstore/visitcache.cpp:77-89 | the table is copied unchanged; the value is empty iff the table is; without positions the requested codec type is kept and no bytes are stored |
| CompressedBlobSets.CompressedBlobSet.GetBlobSet | searchlib/src/vespa/searchlib/docstore/visitcache.cpp:91-100 | a fresh set with the same table whose buffer is the first getBufferSize bytes decompressed |
| CompressedBlobSets.CompressRoundTrip | searchlib/src/vespa/searchlib/docstore/visitcache.cpp:77-100 | if the library round-trips, decompressing the compressed packing gives back its table and bytes |
| CompressedBlobSets.RoundTripBlobSet | searchlib/src/vespa/searchlib/docstore/visitcache.cpp:77-100 | compressing a valid set and calling getBlobSet twice gives two sets equal to the original, in table and bytes |
| CompressedBlobSets.CompressedLookup | searchlib/src/vespa/searchlib/docstore/visitcache.cpp:51-100 | after compressing a packing and decompressing it, `get(lid)` gives the first blob appended for `lid` |
| CompressedBlobSets.CompressedLookupAbsent | searchlib/src/vespa/searchlib/docstore/visitcache.cpp:51-100 | after compressing a packing and decompressing it, `get` of an id never appended gives nothing |
| BackingStores.Collected | searchlib/src/vespa/searchlib/docstore/visitcache.cpp:120-125 | the collector keeps a visit iff its bytes are non-empty, and keeps no more visits than it was handed |
| BackingStores.CollectedCounts | searchlib/src/vespa/searchlib/docstore/visitcache.cpp:120-125 | each non-empty visit is kept exactly as many times as it was delivered, each empty one never |
| BackingStores.CollectedFirst | searchlib/src/vespa/searchlib/docstore/visitcache.cpp:120-125 | the collector keeps the store's order: the first non-empty visit for an id is also the first kept entry for that id |
| BackingStores.VisitCollector.constructor | searchlib/src/vespa/searchlib/docstore/visitcache.cpp:111-113 | a collector starts with an empty set |
| BackingStores.VisitCollector.Visit | searchlib/src/vespa/searchlib/docstore/visitcache.cpp:120-125 | a non-empty blob is appended; an empty one changes nothing |
| BackingStores.BackingStore.Fetched | searchlib/src/vespa/searchlib/docstore/visitcache.cpp:129-135 | the value a miss produces has one position per kept visit, and it is empty iff every delivered blob is empty |
| BackingStores.BackingStore.Read | searchlib/src/vespa/searchlib/docstore/visitcache.cpp:129-135 | the result is the compressed packing of the non-empty visits; it returns true iff the value is non-empty iff some visit delivered bytes |
| BackingStores.FoundIffNonEmptyVisit | searchlib/src/vespa/searchlib/docstore/visitcache.cpp:129-135 | the packing is empty exactly when every delivered blob is empty |
| BackingStores.FetchedLookup | searchlib/src/vespa/searchlib/docstore/visitcache.cpp:120-135 | on a miss, after decompression an id gives exactly the first non-empty blob the store delivered for it |
| BackingStores.FetchedLookupAbsent | searchlib/src/vespa/searchlib/docstore/visitcache.cpp:120-135 | on a miss, after decompression an id for which the store delivered no non-empty blob gives nothing |
| VisitCaches.Cache.constructor | searchlib/src/vespa/searchlib/docstore/visitcache.cpp:202-204 | a new cache is empty and its index holds |
| VisitCaches.Cache.NoOverlap | searchlib/src/vespa/searchlib/docstore/visitcache.cpp:217-224 | under the index, two live batches that share an id are the same batch, and every mapped id's representative is the front, and so the smallest id, of the one live batch holding it |
| VisitCaches.InsertKeepsIndex | searchlib/src/vespa/searchlib/docstore/visitcache.cpp:217-224 | inserting a batch that shares no id with a live one, then running onInsert, keeps the index exact |
| VisitCaches.RemoveKeepsIndex | searchlib/src/vespa/searchlib/docstore/visitcache.cpp:226-232 | erasing a live batch, then running onRemove, keeps the index exact |
| VisitCaches.Cache.OnInsert | searchlib/src/vespa/searchlib/docstore/visitcache.cpp:217-224 | `_id2KeySet[front] = key`, and every id of the key is mapped to `front` in `_lid2Id`; nothing else changes |
| VisitCaches.Cache.OnRemove | searchlib/src/vespa/searchlib/docstore/visitcache.cpp:226-232 | every id of the key is erased from `_lid2Id`, and `front` from `_id2KeySet`; nothing else changes |
| VisitCaches.Cache.Invalidate | searchlib/src/vespa/searchlib/docstore/visitcache.cpp:180-183 | a live batch is erased and onRemove runs; an absent one changes nothing; the index is kept |
| VisitCaches.RepresentativesOfSharing | searchlib/src/vespa/searchlib/docstore/visitcache.cpp:143-153 | under the index, the mapped representatives of a key's ids are exactly the representatives of the live batches sharing an id with it |
| VisitCaches.Cache.FindSetsContaining | searchlib/src/vespa/searchlib/docstore/visitcache.cpp:143-153 | the result is the set of `_lid2Id[x]` over the key's mapped ids; under the index, the representatives of the live batches sharing an id with the key |
| VisitCaches.Cache.LocateAndInvalidateOtherSubsets | searchlib/src/vespa/searchlib/docstore/visitcache.cpp:170-184 | exactly the live batches sharing an id with the key are invalidated; afterwards none of the key's ids is mapped and the index holds |
| VisitCaches.Cache.Read | searchlib/src/vespa/searchlib/docstore/visitcache.cpp:165 | a hit returns the cached value and changes nothing; a miss returns the store's value and caches it iff it is non-empty |
| VisitCaches.Cache.ReadSet | searchlib/src/vespa/searchlib/docstore/visitcache.cpp:155-168 | an empty key returns the default value and touches neither map; a hit returns the cached value; a miss first drops every overlapping batch, then caches the fetched value iff it is non-empty |
| VisitCaches.Cache.RemoveKey | searchlib/src/vespa/searchlib/docstore/visitcache.cpp:206-215 | an unmapped id changes nothing; a mapped id drops exactly the one live batch holding it and all of that batch's ids |
| VisitCaches.VisitCache.constructor | searchlib/src/vespa/searchlib/docstore/visitcache.cpp:137-141 | a new visit cache is empty over the given store |
| VisitCaches.VisitCache.Read | searchlib/src/vespa/searchlib/docstore/visitcache.cpp:186-190 | no ids give the default value and change nothing; a live batch gives its cached value and changes nothing; otherwise the value is what the store delivers for the batch, exactly the live batches sharing an id with it are dropped, every other live batch stays with its value, and the batch is cached iff its value is non-empty; in all cases no other live batch shares an id with it and no other batch became live |
| VisitCaches.VisitCache.Remove | searchlib/src/vespa/searchlib/docstore/visitcache.cpp:192-195 | the live batch holding the id, if any, is dropped and the id is no longer mapped |
| VisitCaches.DisjointSetStaysCached | searchlib/src/vespa/searchlib/docstore/visitcache.cpp:155-184 | reading a batch disjoint from a live batch leaves that batch cached with its value |
| VisitCaches.OverlappingSetIsEvicted | searchlib/src/vespa/searchlib/docstore/visitcache.cpp:155-184 | reading a different batch that shares an id with a live batch evicts it |
| DenseTensorBuilder.ProductSnoc | vespalib/src/vespa/vespalib/tensor/dense/direct_dense_tensor_builder.cpp:17-20 | one more loop step multiplies the cell count by the next dimension's size |
| DenseTensorBuilder.CalculateCellsSize | vespalib/src/vespa/vespalib/tensor/dense/direct_dense_tensor_builder.cpp:14-22 | the result is the product of all dimension sizes modulo 2^64, 1 with no dimensions, and the exact product when that fits |
| DenseTensorBuilder.HornerIsRowMajor | vespalib/src/vespa/vespalib/tensor/dense/direct_dense_tensor_builder.cpp:28-33 | the loop's `result * size + coordinate` accumulation equals the sum of each coordinate times the product of the later sizes |
| DenseTensorBuilder.CalculateCellAddress | vespalib/src/vespa/vespalib/tensor/dense/direct_dense_tensor_builder.cpp:24-34 | for an address with one coordinate per dimension, the result is the row-major offset modulo 2^64, and the exact offset, below the cell count, for in-bounds coordinates when the count fits |
| DenseTensorBuilder.InBoundsBelowProduct | vespalib/src/vespa/vespalib/tensor/dense/direct_dense_tensor_builder.cpp:25-34 | in-bounds coordinates give a row-major offset below the product of the sizes |
| DenseTensorBuilder.RowMajorInjective | vespalib/src/vespa/vespalib/tensor/dense/direct_dense_tensor_builder.cpp:25-34 | two in-bounds addresses with the same row-major offset are equal |
| DenseTensorBuilder.InBoundsAddressFits | vespalib/src/vespa/vespalib/tensor/dense/direct_dense_tensor_builder.cpp:44-50 | when the cell count fits in size_t, an in-bounds address passes insertCell's range assert |
| DenseTensorBuilder.CellIndexInjective | vespalib/src/vespa/vespalib/tensor/dense/direct_dense_tensor_builder.cpp:44-50 | when the cell count fits, in-bounds addresses name the same cell iff they are equal |
| DenseTensorBuilder.DirectDenseTensorBuilder.constructor | vespalib/src/vespa/vespalib/tensor/dense/direct_dense_tensor_builder.cpp:38-42 | the builder is valid (the cell array is exactly calculateCellsSize long), every cell is 0.0, and the dimensions are kept |
| DenseTensorBuilder.DirectDenseTensorBuilder.InsertCell | vespalib/src/vespa/vespalib/tensor/dense/direct_dense_tensor_builder.cpp:44-50 | exactly the cell at the computed address becomes the value; every other cell is unchanged |
| DenseTensorBuilder.DirectDenseTensorBuilder.Build | vespalib/src/vespa/vespalib/tensor/dense/direct_dense_tensor_builder.cpp:52-56 | the tensor gets the dimensions and the cells unchanged |
| DenseTensorBuilder.InsertTwoCells | vespalib/src/vespa/vespalib/tensor/dense/direct_dense_tensor_builder.cpp:44-50 | inserting at two different in-bounds addresses keeps both values |

## Left out

- Locking. `getGuard` and the per-value locks are not modelled, and neither is the race described in the comment in `locateAndInvalidateOtherSubsets`. The model is a single-threaded sequence of operations.
- VisitCaches.Cache.Read: requires that the key is live or shares no id with any live batch. In the source, `readSet` establishes this only under the cache lock, which it drops before `read`. The model makes it a precondition instead of modelling the interleaving.
- The generic cache's eviction policy, byte budget and hit/miss counters are not modelled. `getCacheStats` and `CompressedBlobSet::size()` are left out because they depend on `capacity()`, `sizeof` and those counters. An eviction by the generic cache is the same erase-then-`onRemove` step as `Invalidate`.
- Compression internals. `document::compress`/`decompress` are foreign calls. They are the `Codec` function values; the round trip is a hypothesis. The codec type the library reports is carried along but not interpreted.
- CompressedBlobSets.CompressedBlobSet.GetBlobSet: requires the library to deliver at least getBufferSize(positions) bytes. The source only passes that length to the library and never checks the result; a shorter result would make the buffer read past its end.
- Memory allocation (`DefaultAlloc`, `HUGEPAGE_SIZE`, `DataBuffer`, `memcpy`) is not modelled. Buffers are sequences.
- The `uint32_t` width of `LidPosition` offsets and sizes is not modelled. They are natural numbers.
- `IDataStore::read` is I/O. It is the `visits` parameter; which visits the store delivers for a key is not modelled.
- KeySets.ContainsIffSuperset: requires `rhs` without repeated ids. With repeats, `std::includes` counts multiplicity, which `IncludesIsMultisetInclusion` states in full.
- `VisitCache::read` also builds a `KeySet` from the ids and then ignores it; `readSet` builds its own from the same list. The model builds the key once.
- `DenseTensor` itself, the tensor the builder hands over, is a plain value of dimensions and cells. The builder's moved-from state after `build` is not modelled.
- `double` cell values are `real`. Values are only stored, never computed with.
- DenseTensorBuilder.DimensionMeta: the header declaring the width of dimension sizes and address coordinates is not part of this model. Both are taken as `size_t`.
- DenseTensorBuilder.DirectDenseTensorBuilder.InsertCell: requires an address with one coordinate per dimension whose offset lands inside the array. These are the two `assert`s of the source. Out-of-range coordinates are not bounds-checked.
