# csr — a verified model of the sparse co-occurrence counter

This project models the core of `csr`, a Rust program that counts how often
two tags appear together in the same post. The counts go into a
compressed-sparse-row (CSR) matrix. The model covers:

- **The CSR matrix crate**, split over four modules:
  - `Rows`, `Layout` and `CsrMatrix` (`rows.dfy`, `layout.dfy`, `csr.dfy`). A
    `Csr` class holds `n_rows`, `n_cols`, `n_nz`, `row_ptr`, `col_idx` and
    `val`. It has:
    - the batch constructors `from_triplet` and `from_fxhash`;
    - the cell lookup `value`;
    - the row-by-row two-pointer addition `&a + &b`, and `add_in_place`.
  - `CsrIterator` (`csr_iter.dfy`): the row-major iterator `CSRIter` and its
    `next`.
- **`get_co_counts`** (`co_counts.dfy`): every pair of positions of a post
  adds one to both `(a, b)` and `(b, a)`. The posts are cut into chunks, each
  chunk is counted into a map and turned into a matrix, and the chunk
  matrices are summed with `add_in_place`.
- **The two tag dictionaries**:
  - `Tags` (`tags.dfy`) is the one in `src/tags.rs`. It includes the
    `tag_set` rebuild done by its `Deserialize` impl.
  - `MainTags` (`main_tags.dfy`) is the variant declared in `src/main.rs`.

Each batch constructor, `add`, `next` and the counting loops are proved
against specification functions:

- `SortByCol`: a stable insertion sort by column;
- `Merge`: the two-pointer merge of two rows;
- `GroupRow`: a row's `(col, value)` pairs in input order;
- `TriplesOf`: the row-major enumeration;
- `PairCount` and `Count`: what one post, and a list of posts, adds to a key.

Lemmas then prove what those functions mean:

- sorting is a stable permutation;
- a merge of ascending rows is ascending and adds cell by cell;
- a post of `m` tags makes `m * (m - 1)` increments;
- the off-diagonal count of a post is a product of occurrence counts;
- the counts are symmetric;
- chunking partitions the posts.

Values are `f32` in the source. Here `int` stands in for them: the
co-occurrence counts are whole numbers, while `calculate_npmi` stores
fractional scores in a matrix of the same kind. No contract of
`from_triplet`, `from_fxhash`, `value`, the iterator or `Merge` relies on the
values being whole: they only move, compare with zero and add them.
Integers are unbounded.

## Model

| member | source | states |
|---|---|---|
| CsrMatrix.Csr.New | src/csr_matrix/src/lib.rs:19-28 | `new` stores nothing: `n_nz == 0`, `row_ptr` is `n_rows + 1` zeros, both entry vectors are empty, and every cell reads 0 |
| CsrMatrix.Csr.FromTriplet | src/csr_matrix/src/lib.rs:30-66 | the matrix is well shaped, and its `row_ptr` and entries are the layout of the rows grouped from the triplets and stably sorted by column. Each row is sorted and holds each `(c, v)` exactly as often as the input holds `(i, c, v)`. Entries of one column keep their input order. A row's span is empty exactly when no triplet names that row |
| CsrMatrix.GroupByRow | src/csr_matrix/src/lib.rs:31-34 | the push loop leaves in row `i` exactly the pairs of the triplets of row `i`, in input order (`GroupRow`) |
| CsrMatrix.SortEachRow | src/csr_matrix/src/lib.rs:35-37 | every row is replaced by its stable sort by column, and the number of rows is unchanged |
| CsrMatrix.LayOut | src/csr_matrix/src/lib.rs:39-56 | the layout loop produces `row_ptr == Offsets(rows)`, with entries equal to the rows concatenated and `n_nz` equal to their number |
| Layout.OffsetsLayout | src/csr_matrix/src/lib.rs:44-56 | laying rows out one after the other gives a well-shaped `row_ptr` (starts at 0, never decreases, ends at `n_nz`), and the span of row `i` holds exactly row `i` |
| Layout.LayoutDeterminedByRows | src/csr_matrix/src/lib.rs:44-56 | the converse of `OffsetsLayout`: any well-shaped layout whose spans are `rows` equals `Offsets(rows)` and `Concat(rows)` |
| Layout.GroupRowCount | src/csr_matrix/src/lib.rs:32-34 | grouping by row loses and invents nothing: row `r` holds `(c, v)` as often as the input holds `(r, c, v)` |
| Rows.SortByColMultiset | src/csr_matrix/src/lib.rs:36 | sorting a row is a permutation of it |
| Rows.SortByColSorted | src/csr_matrix/src/lib.rs:36 | a sorted row has non-decreasing columns |
| Rows.SortByColStable | src/csr_matrix/src/lib.rs:36 | `sort_by_key` is stable: the entries of each column keep their relative order |
| Rows.SortByColIdentity | src/csr_matrix/src/lib.rs:36 | sorting a row whose columns already never decrease leaves it unchanged |
| Rows.SortByColDistinct | src/csr_matrix/src/lib.rs:36 | sorting a row with distinct columns gives strictly ascending columns |
| Layout.FromTripletOfTriplesIdentity | src/csr_matrix/src/lib.rs:30-66 | building a matrix from its own row-major enumeration gives back the same `row_ptr` and entries, when its rows are in column order |
| CsrMatrix.Csr.FromFxHash | src/csr_matrix/src/lib.rs:68-108 | whatever order the map yields its keys in, every row is strictly ascending. Row `i` holds `(c, v)` exactly when the map holds `(i, c) -> v`. Every cell reads back the map's value, or 0 where the map has no key. Positive map values give positive stored values |
| CsrMatrix.GroupMapByRow | src/csr_matrix/src/lib.rs:73-76 | pushing each key of the map onto its row gives rows with distinct columns, holding exactly the map's entries of that row |
| CsrMatrix.Csr.Value | src/csr_matrix/src/lib.rs:110-122 | `None` exactly when the row or the column is outside the matrix; otherwise the value of the first stored entry of that column in the row, or 0 |
| Rows.LookupAbsent | src/csr_matrix/src/lib.rs:116-121 | a column a row does not store reads as 0 |
| Rows.LookupPresent | src/csr_matrix/src/lib.rs:116-121 | in a row with distinct columns, each stored entry's column reads back its value |
| CsrMatrix.ValueGuardAsWrittenAdmitsLastRow | src/csr_matrix/src/lib.rs:111 | the source's test, `row > n_rows` or `col > n_cols`, passes `row == n_rows`, whose `row_ptr[row + 1]` is past the end of `row_ptr`. It also passes `col == n_cols` |
| CsrMatrix.Csr.Add | src/csr_matrix/src/ops.rs:9-70 | `Err("Matrices are not the same size")` exactly when the shapes differ. Otherwise the result is a new, well-shaped matrix of the same shape with at most `n_nz + other.n_nz` entries, and each row is `Merge` of the two rows |
| CsrMatrix.Csr.Make | src/csr_matrix/src/lib.rs:58-65 | the struct literal that ends `from_triplet` (and, in the same form, `from_fxhash` and `add`): the matrix holds exactly the six given fields |
| CsrMatrix.ValueGuardAsWritten | src/csr_matrix/src/lib.rs:111 | the bounds test as written rejects only cells outside the matrix; it rejects too little, not too much |
| CsrMatrix.MergeStep | src/csr_matrix/src/ops.rs:28-56 | one turn of the loop, with the cancelling pair consumed: a cursor moves forward and neither passes its span end, the output grows only by what is pushed, at most one entry per step taken, and what is pushed is the head of `Merge` of what was left, followed by `Merge` of what is left now |
| CsrMatrix.MergeSpans | src/csr_matrix/src/ops.rs:25-58 | the two-cursor loop over two row spans appends exactly `Merge` of the spans to the output, and appends at most their total length |
| CsrMatrix.SumCells | src/csr_matrix/src/ops.rs:27-58 | the meaning of the row merges of `&a + &b` and of `add_in_place`. With strictly ascending rows, the sum's rows are strictly ascending and every cell is the sum of the two cells. With positive values as well, the sum's values are positive and its columns are the union of the operands' |
| Rows.MergeLength | src/csr_matrix/src/ops.rs:27-58 | a merged row is no longer than the two rows together |
| Rows.MergeAscending | src/csr_matrix/src/ops.rs:27-58 | merging two strictly ascending rows gives a strictly ascending row |
| Rows.MergeLookup | src/csr_matrix/src/ops.rs:27-58 | for ascending rows, every column of the merge reads the sum of what the two rows read there |
| Rows.MergePositive | src/csr_matrix/src/ops.rs:27-58 | merging rows of positive values gives positive values, and no shared column cancels |
| Rows.MergeColsWithin | src/csr_matrix/src/ops.rs:27-58 | every column of the merge comes from one of the rows |
| Rows.MergeColsUnion | src/csr_matrix/src/ops.rs:27-58 | when no shared column cancels, the merge holds exactly the union of the rows' columns |
| Rows.StepAsWritten | src/csr_matrix/src/ops.rs:27-57 | one pass of the loop body as written: the cursors never move back or past their rows, move at most two steps together, and the output grows by at most one entry, keeping what it held. It changes the state exactly when a cursor moves |
| Rows.StepAsWrittenAgrees | src/csr_matrix/src/ops.rs:27-57 | away from a cancelling pair, one iteration of the loop as written moves a cursor forward and agrees with `Merge` |
| Rows.StepAsWrittenStalls | src/csr_matrix/src/ops.rs:40-47 | with equal columns whose values sum to zero, the loop body as written changes nothing while the loop guard still holds |
| Rows.StallExample | src/csr_matrix/src/ops.rs:40-47 | the rows `[(0, 1)]` and `[(0, -1)]` make the loop as written spin, while their intended merge is empty |
| CsrMatrix.Csr.AddInPlace | src/csr_matrix/src/lib.rs:138-146 | on a shape mismatch the same error is returned and the matrix is untouched. Otherwise each row becomes `Merge` of its old contents and the other's row, with at most `old n_nz + other.n_nz` entries |
| Layout.RowIndexFrom | src/csr_matrix/src/iter.rs:27-29 | the `while` that advances `current_row`: from a row at or before a stored position, it stops at the row at or after it whose span holds that position |
| Layout.RowIndexUnique | src/csr_matrix/src/iter.rs:27-29 | only one row's span holds a given stored position, so the row that `next` settles on is determined |
| Layout.GroupRowOfTriplesPrefix | src/csr_matrix/src/iter.rs:22-37 | grouping the first `k` triples of the enumeration by row gives, for each row, the part of its span below `k` |
| CsrIterator.CsrIter.constructor | src/csr_matrix/src/iter.rs:10-16 | `iter` starts at row 0 and position 0, with the whole enumeration still to come |
| CsrIterator.Iter | src/csr_matrix/src/iter.rs:10-16 | `CSR::iter` returns a new iterator over `m` at row 0 and position 0 |
| CsrIterator.CsrIter.Next | src/csr_matrix/src/iter.rs:22-37 | `None` exactly when every stored entry has been yielded, and the state then stays put. Otherwise the entry at `idx` comes out tagged with the row whose span holds it; the row never moves back, and the yielded item is the head of what remained |
| CsrIterator.CsrIter.Drain | src/csr_matrix/src/iter.rs:19-38 | calling `next` until `None` yields exactly the remaining enumeration and ends at `n_nz` |
| CsrIterator.IntoIter | src/csr_matrix/src/iter.rs:40-45 | `&CSR` iterates with the same iterator as `CSR::iter` |
| CsrIterator.Enumerate | src/csr_matrix/src/iter.rs:40-45 | `for (row, col, val) in &m` yields exactly `n_nz` items. The k-th item is `(r, col_idx[k], val[k])`, with `k` inside row `r`'s span, and rows never decrease |
| CoCounts.CountRow | src/nmpi.rs:30-35 | the innermost loop for position `i` adds `RowPart(p, i, len)` to every key, and keeps every key in range with a positive count |
| CoCounts.CountPost | src/nmpi.rs:29-36 | the two inner loops add `PairCount(p, a, b)` to every key `(a, b)` |
| CoCounts.CountChunk | src/nmpi.rs:26-37 | a worker's map holds, for every key, the chunk's total `Count`. Its keys are pairs of tag ids with positive counts |
| CoCounts.ChunkWorker | src/nmpi.rs:25-41 | a worker returns an `n_tags x n_tags` matrix with ascending rows and positive values, holding the chunk's counts |
| CoCounts.CountChunks | src/nmpi.rs:22-44 | one matrix per chunk, each holding its chunk's counts |
| CoCounts.SumChunks | src/nmpi.rs:45-52 | adding the chunk matrices into `CSR::new(n_tags, n_tags)` never fails, and gives in each cell the sum of the chunks' counts |
| CoCounts.GetCoCounts | src/nmpi.rs:9-53 | `Ok`, with an `n_tags x n_tags` matrix with ascending rows and positive values whose cell `(a, b)` is the total count of the posts. The matrix is symmetric |
| CoCounts.Chunks | src/nmpi.rs:23 | `chunks(size)` gives no chunk exactly for no posts. There are at most as many chunks as posts, `size` posts per chunk leave room for every post, and one chunk fewer would not |
| CoCounts.ChunksPartition | src/nmpi.rs:23 | `chunks(n_posts / 12 + 1)` puts the chunks back together into the posts, in order. Each chunk holds between 1 and `size` posts, and all but the last exactly `size` |
| CoCounts.CountFlatten | src/nmpi.rs:23 | the total over the chunks, chunk by chunk, is the total over the posts they partition |
| CoCounts.PairKeysLength | src/nmpi.rs:29-36 | a post of `m` tags makes `m * (m - 1)` increments |
| CoCounts.PairKeysCount | src/nmpi.rs:29-36 | the increments of one post, as a multiset of keys, are its `PairCount` histogram |
| CoCounts.RowKeysCount | src/nmpi.rs:30-35 | the increments of position `i` hit each key as often as `RowPart` says |
| CoCounts.PairCountSymmetric | src/nmpi.rs:33-34 | each post adds the same amount to `(a, b)` and to `(b, a)` |
| CoCounts.CountSymmetric | src/nmpi.rs:33-34 | the total counts over any list of posts are symmetric |
| CoCounts.PairCountOffDiagonal | src/nmpi.rs:29-36 | for two different tags, a post adds the product of their numbers of occurrences |
| CoCounts.PairCountDiagonal | src/nmpi.rs:29-36 | on the diagonal, a post adds `n * (n - 1)` for a tag it lists `n` times, so the diagonal is touched only by a repeated tag |
| CoCounts.CountAppend | src/nmpi.rs:28-37 | counting two lists of posts one after the other adds their totals |
| Tags.Tags.New | src/tags.rs:20-25 | `new` has no tags, and is valid |
| Tags.Tags.AddOrIncrement | src/tags.rs:27-42 | a known tag keeps its id and its count goes up by one. A new tag is appended with count 1, and its id is the old length. The keys grow by exactly the tag, the id and the name find each other, and validity is kept |
| Tags.Tags.GetIdx | src/tags.rs:44-50 | `None` exactly for unknown tags; a returned id names that tag |
| Tags.Tags.GetName | src/tags.rs:52-58 | `None` exactly for ids at or past the length; a returned name maps back to that id |
| Tags.Tags.GetCount | src/tags.rs:60-67 | `None` exactly for unknown tags; a known tag's count is at least 1 in a valid dictionary. It needs only that every key points at an entry holding its name, which a rebuilt `tag_set` always gives |
| Tags.Tags.GetCountIdx | src/tags.rs:69-75 | `None` exactly for ids at or past the length; otherwise a count of at least 1 |
| Tags.Tags.Len | src/tags.rs:77-79 | the length is the number of distinct tags in `tag_set` |
| Tags.Tags.IndexedCount | src/tags.rs:14-17 | when `tag_set` and `vec` index each other, `tag_set` has one key per entry of `vec` |
| Tags.Tags.IdxNameInverse | src/tags.rs:44-58 | `get_idx(tag) == Some(i)` exactly when `get_name(i) == Some(tag)` |
| Tags.Tags.CountByNameOrIdx | src/tags.rs:60-75 | counting a tag by its name or by its id gives the same answer |
| Tags.NamesBelowCount | src/tags.rs:14-17 | when names are distinct, the first `n` entries hold `n` names |
| Tags.Tags.Deserialize | src/tags.rs:141-163 | the stored `tag_set` is ignored and `vec` is kept. `tag_set` is rebuilt with exactly the names of `vec` as keys, each pointing at the last entry holding it. With distinct names the two index each other again |
| Tags.RebuildTagSet | src/tags.rs:152-157 | the rebuild loop maps every name of `vec` to a position holding it, the last such position. With distinct names, each name maps to its own position |
| MainTags.Tags.New | src/main.rs:31-36 | `new` has no tags, and is valid |
| MainTags.Tags.AddOrIncrement | src/main.rs:38-50 | a known tag keeps its stored id and its stored count goes up by one. A new tag's name is pushed, and it is stored with the old length as id and count 1. The id and the name find each other, and validity is kept |
| MainTags.Tags.GetIdx | src/main.rs:52-58 | `None` exactly for unknown tags; a returned id holds that name |
| MainTags.Tags.GetName | src/main.rs:60-66 | `None` exactly for ids at or past the length; a returned name is stored with that id |
| MainTags.Tags.GetCount | src/main.rs:68-74 | `None` exactly for unknown tags; a known tag's count is at least 1 |
| MainTags.Tags.GetCountIdx | src/main.rs:76-85 | `None` exactly for ids at or past the length, otherwise a count of at least 1. The `unwrap` on the name's count cannot fail |
| MainTags.Tags.Len | src/main.rs:87-89 | the length is the number of distinct tags in `tag_set` |
| MainTags.Tags.ValidCount | src/main.rs:24-28 | a valid dictionary has one key per name in `vec` |
| MainTags.Tags.IdxNameInverse | src/main.rs:52-66 | `get_idx(tag) == Some(i)` exactly when `get_name(i) == Some(tag)` |
| MainTags.Tags.CountByNameOrIdx | src/main.rs:68-85 | the count by id is the count of the name at that id, and counting by name or by id agree |
| MainTags.NamesBelowCount | src/main.rs:24-28 | when names are distinct, the first `n` names are `n` different names |

## Left out

- Floating point: `val` is `f32` in the source, and it is modelled as `int`.
  The crate accepts any `f32`: `get_co_counts` stores counts (sums of
  `1.0`), and `calculate_npmi` stores fractional, possibly negative, scores.
  Addition and the test `sum == 0.0` are exact here, so `f32` rounding (of
  large counts, or of two scores that nearly cancel) is not modelled.
- Threads: the workers of `get_co_counts` run one after the other here. The
  joins happen in spawn order in the source too, so the sums agree. The
  `println!` calls are left out.
- CsrMatrix.Csr.AddInPlace: requires `other != this`. This is the Rust
  borrow rule, which forbids `m.add_in_place(&m)`.
- CsrMatrix.Csr.AddInPlace: states the row merges only. The cell-by-cell
  meaning comes from `CsrMatrix.SumCells`, applied to the rows before the
  call (as `CoCounts.SumChunks` does).
- CsrMatrix.Csr.Add: states the row merges only. The cell-by-cell meaning
  comes from `CsrMatrix.SumCells`.
- CsrMatrix.Csr.FromFxHash: the map's iteration order is chosen
  nondeterministically. FxHash's actual order is not modelled, and the
  contract holds for every order.
- CsrMatrix.Csr.FromTriplet and CsrMatrix.Csr.FromFxHash: require every row
  index to be below `n_rows`. The source panics on `rows[r]` otherwise, and
  a panic is not modelled.
- CoCounts.GetCoCounts: requires every tag id of a post with at least two
  tag ids to be below `tags.len()`. A larger id in such a post makes
  `from_fxhash` panic in the source. A post with one tag id makes no pair,
  so its id may be anything.
- Tags.Tags.AddOrIncrement: requires `Valid()`, so a `Tags` rebuilt from a
  `vec` with a repeated name is modelled through the rebuild and
  `get_count`, `get_idx`, `get_name` and `get_count_idx`, not through
  further increments.
- Widths: `usize` and `u32` are unbounded here.
  - Tags.Tags.AddOrIncrement: the `u32` count overflow on the 2^32-th
    increment is not modelled.
  - MainTags.Tags.AddOrIncrement: the `len() as u32` truncation, and the
    `u32` count overflow, are not modelled.
  - MainTags.Tags.GetName: the comparison `idx < len() as u32` is made on
    unbounded integers, so the truncation of a length of 2^32 or more is not
    modelled.
  - The `as usize` conversions of tag ids are likewise unbounded.
- `Rc<str>` sharing and `FxHashMap` hashing: names are `string` values and
  maps are Dafny maps.
- Serde plumbing: `Serialize` and the `TagData` `Deserialize` are not part
  of this model; only the `tag_set` rebuild of the `Tags` `Deserialize`
  impl is. `Tags.Tags.Deserialize` takes the deserialized `vec` as a
  parameter, and the stored `tag_set` is ignored, as in the source.
- Not part of this model:
  - `CSR::size` (memory accounting);
  - `CSR::insert`, whose body is `todo!()`;
  - `calculate_npmi`, `main` and `src/read_write.rs` (CSV input).

## Findings

| source | as written | input that shows it | evidently intended | confidence | as-written member | corrected member |
|---|---|---|---|---|---|---|
| src/csr_matrix/src/ops.rs:40-47 | when the two heads have equal columns and `sum == 0.0`, nothing is pushed and neither cursor advances, so the `while` loop spins forever | lhs row `[(0, 1.0)]`, rhs row `[(0, -1.0)]` | drop the cancelled entry and advance both cursors; the merged row is empty | high (not executed) | Rows.StepAsWrittenStalls, Rows.StallExample | Rows.MergeLookup, CsrMatrix.MergeStep, CsrMatrix.MergeSpans |
| src/csr_matrix/src/lib.rs:111 | the bounds test, `row > self.n_rows` or `col > self.n_cols`, lets `row == n_rows` reach `self.row_ptr[row + 1]`, one past the end, and lets `col == n_cols` through, answering the value stored there, or `Some(0.0)` when none is | `m.value(m.n_rows, 0)` on any matrix | `row >= n_rows` or `col >= n_cols` returns `None` | high (not executed) | CsrMatrix.ValueGuardAsWrittenAdmitsLastRow | CsrMatrix.Csr.Value |
