# nahiri core, modelled in Dafny

nahiri is an in-memory vector database. Each stored vector carries an opaque
payload. This project models three pieces of it:

- `VectorDatabase` (`src/lib.rs`). It holds the (vector, payload) pairs in insertion order.
  Its `closest_neighbors` scans every point. It scores each one against a query
  vector and keeps a bounded buffer of the best `max_results` points. The buffer
  is sorted, and each candidate is placed in it by a binary search.
- `Layer` (`src/layer.rs`). This is the per-node neighbour storage for up to four
  proximity tiers. Each tier is a fixed-length array of node positions. The
  accessors reach the tier-0 array from any variant.
- `BuildError` (`src/error.rs`). This is the single structured build error,
  `NotEnoughDataPoints { expected, cause, found }`, and the one-line message it
  displays as.

Modules:

- `Vectors` (lib_vector.dfy): `Vector` and the score `euclidian_distance`.
- `TopK` (topk.dfy): the sorted buffer, the comparator, the binary search, one
  scan step, and the invariant the scan keeps.
- `Database` (database.dfy): `VectorDatabase`, `new` and `closest_neighbors`.
- `Layers` (layer.dfy): `Layer`, `l0` and `l0_mut`.
- `Errors` (error.dfy): `BuildError`, its constructor, its message, and a parser
  that reads the fields back out of a message.
- `Decimal` (decimal.dfy): decimal rendering of a `usize` as `{}` prints it, and
  parsing it back.
- `Wrappers` (wrappers.dfy): `Option`.

Scores are integers. `f32` multiplication and summation become exact integer
arithmetic. `int`'s total order stands in for `f32::total_cmp`.

The comparator at `src/lib.rs:54` is `distance.total_cmp(d)`. It compares the
candidate against the entry, not the entry against the candidate.
`binary_search_by` reads `Less` as "this entry goes before the target". So the
buffer is kept in non-increasing score order, and the scan keeps the LARGEST
scores. The model states exactly that order. The doc comment at `src/lib.rs:44`
says "closest"; the model follows the code instead. The score is also a dot
product, not a Euclidean distance, despite the function's name. With a dot product as a similarity,
keeping the largest values is the "most similar" reading.

Rust's `binary_search_by` may return any matching index on `Ok`.
`TopK.IsSearchResult` therefore admits every answer the library may give. All
lemmas about a scan step hold for every such answer. `TopK.BinarySearch` is one
concrete search that returns such an answer, and `ClosestNeighbors` uses it.

## Model

| member | source | states |
|---|---|---|
| Vectors.Distance | src/lib.rs:11-17 | `euclidian_distance` is the front-to-back sum, over the zipped components, of their products: a dot product, cut at the shorter vector as `zip` does |
| Vectors.DistanceSymmetric | src/lib.rs:11-17 | the score of `a` against `b` equals the score of `b` against `a` |
| Vectors.SumProductsSymmetric | src/lib.rs:12-16 | the running sum of componentwise products is unchanged when the two operands are swapped |
| Vectors.DistanceAppend | src/lib.rs:11-17 | extending two equal-length vectors by one component adds exactly that component's product to the score, so the score is a dot product |
| Database.New | src/lib.rs:34-40 | the database holds as many pairs as were given, and pair k is the k-th input, with its components wrapped as a vector and its payload copied |
| Database.RawOfNew | src/lib.rs:34-39 | reading the pairs back out of a new database gives exactly the input, so nothing is lost or reordered |
| Database.ClosestNeighbors | src/lib.rs:45-72 | returns `min(max_results, n)` payloads (none when `max_results` is 0). Each comes from the database. No point appears twice. The order is non-increasing by score. Every point not returned scores at most every point returned |
| TopK.Probe | src/lib.rs:54 | the comparator answers `Less` exactly when the entry scores more than the candidate and `Greater` exactly when it scores less, so `binary_search_by` places higher scores first |
| TopK.IsSearchResult | src/lib.rs:54-55 | the answers `binary_search_by` may give, with `Ok` and `Err` merged: any index of an entry comparing `Equal`, or else the boundary between the `Less` and the `Greater` entries |
| TopK.BinarySearch | src/lib.rs:54-55 | on a buffer in the comparator's order, returns an index `binary_search_by` may return: an entry comparing `Equal`, or else the boundary between the `Less` and `Greater` entries |
| TopK.SearchResultSplits | src/lib.rs:54-55 | every entry before a search answer scores at least the candidate, every entry from it on scores at most the candidate, and the answer is the end exactly when every entry scores more |
| TopK.Insert | src/lib.rs:58 | `Vec::insert` puts the candidate at the index, keeps the entries before it, and shifts the rest back by one |
| TopK.Step | src/lib.rs:56-66 | one scan step on a buffer within bound grows it by one until it reaches `max_results` and never past it |
| TopK.StepSorted | src/lib.rs:54-64 | inserting, and popping then inserting, at any search answer keeps the buffer in non-increasing score order |
| TopK.InsertRetains | src/lib.rs:58 | after an insert the buffer holds the candidate's point and exactly the points it held before |
| TopK.InsertDistinct | src/lib.rs:58 | inserting a point the buffer does not hold keeps every point held at most once |
| TopK.PopRetains | src/lib.rs:62 | `pop` on a buffer without repeats forgets exactly the last entry's point |
| TopK.FullStep | src/lib.rs:59-66 | on a full buffer the length never changes. The candidate is discarded exactly when the search answer is the end. Otherwise exactly the last entry is evicted and the candidate joins the retained points |
| TopK.ScanStart | src/lib.rs:46 | the empty buffer satisfies the scan invariant before any point is seen |
| TopK.ScanStep | src/lib.rs:49-68 | one iteration on the next point keeps the scan invariant (bounded length, order, distinct points, true scores, top-k) for every search answer |
| TopK.ScanInsert | src/lib.rs:56-58 | while there is room the candidate is inserted and no point seen so far is left out |
| TopK.ScanEvict | src/lib.rs:61-64 | a full buffer whose search answer is not the end evicts its last entry and keeps the invariant |
| TopK.EvictKeepsLargest | src/lib.rs:61-64 | after an eviction, every point not held, the evicted one included, scores at most every retained score |
| TopK.InsertFaithful | src/lib.rs:51-58 | inserting the candidate with its own score keeps every entry paired with its point's true score |
| TopK.ScanDiscard | src/lib.rs:59-65 | given a full buffer whose search answer is the end and whose every retained score exceeds the candidate, the unchanged buffer keeps the scan invariant with the candidate counted as seen |
| Layers.Tiers | src/layer.rs:1-23 | the variant tag counts between one and four tiers |
| Layers.HigherTiers | src/layer.rs:6-22 | a variant carries one array for each tier above tier 0 that it takes part in |
| Layers.L0 | src/layer.rs:26-33 | `l0` is defined on all four variants. It yields the variant's own `l0_neighbors`, whose length is `L0` in a well-formed layer |
| Layers.WithL0 | src/layer.rs:35-42 | writing through `l0_mut` makes `l0` read back the written array. The variant and the tier 1-3 arrays are unchanged, fixed lengths are kept, and writing back what was read changes nothing |
| Layers.WithL0Twice | src/layer.rs:35-42 | a second write through `l0_mut` overrides the first completely |
| Errors.MakeNotEnoughDataPoints | src/error.rs:11-13 | the constructor builds the only variant and stores `expected`, `cause` and `found` unchanged |
| Errors.Message | src/error.rs:16-24 | the message is defined for every error. It starts with `Expected at least `, the decimal `expected` follows it directly, and it ends with the decimal `found` |
| Errors.MessageRoundTrip | src/error.rs:18-22 | parsing a message gives back the exact error it came from, whatever the stage label contains, so every field stays diagnosable from the text |
| Decimal.NatToString | src/error.rs:20 | a `usize` prints as one or more decimal digits, with a leading `0` only for zero |
| Decimal.ParseNatToString | src/error.rs:20 | reading a printed count back gives the count |

## Left out

- Floating point. The `f32` components, `f32` multiplication and summation, and the bit-pattern order of `total_cmp` (NaN, signed zero) are not modelled. Scores are exact integers, and `int`'s order is the total order.
- `DIM` is not tracked as a type-level length. `zip` stops at the shorter vector, which the score models. In the source every vector has the same `DIM`, so the cut never happens there.
- `usize` bounds are not modelled. Counts and positions are unbounded naturals.
- Database.ClosestNeighbors: does not model the error path of `Vec::with_capacity(max_results)` at `src/lib.rs:46`. That call panics with "capacity overflow" when `max_results` times the size of a `(f32, &T)` entry exceeds `isize::MAX` (for example `max_results = usize::MAX`), and can abort on allocation failure for smaller huge values. The model instead returns `min(max_results, n)` payloads for every `max_results`, because the entry size and the allocator are platform details outside the model.
- Vector serialisation and deserialisation (`src/vector.rs`). The visitor there builds no vector, so there is no round trip to state. Its score function duplicates the one in `src/lib.rs`.
- The graph index build, the neighbour-list construction, the key-to-position map and the key-based query. Their code is not part of this model.
- Construction of `Layer1`..`Layer3`. Nothing builds them. They exist only as variants of the datatype.
- `l0_mut` hands out a mutable borrow. It is modelled as a functional update, `WithL0`, that replaces the whole tier-0 array.
- `Vec::with_capacity`, `Debug`, `Clone` of the payload, `std::error::Error` and the `Formatter` plumbing. Payloads are a plain type parameter, and the message is a plain string.
- The references `&T` returned by `closest_neighbors` are modelled as positions into the database. The payloads at those positions are returned alongside them.
