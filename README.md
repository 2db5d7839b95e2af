# Dense matrix product and counter stores, modelled in Dafny

This project models two parts of a small Rust repository.

**The dense matrix** (`src/matrix.rs`). A `Matrix` is a flat row-major buffer with a row count and a column count, and elements are integers.
- `Matrix::new` keeps whatever it is given.
- `multiply` rejects operands whose shapes do not fit. Otherwise it fills a zero-initialised buffer with a sequential triple loop, `data[i*b.col+j] += a[i][k] * b[k][j]`.
- `Display` writes `{`, each element followed by a space, a comma between rows, then `}`.
- `Debug` wraps that output as `Matrix(row=R, col=C, …)`.

The model proves:
- `multiply` against a functional specification (`Product`): each cell is the dot product of a row of `a` and a column of `b`;
- `Display` against a recursive string function, with consequences: the comma-join form, and the exact counts of spaces and commas;
- the repository's unit-test values.

**Three counter stores** (`src/metrics.rs`, `src/metrics/cmap.rs`, `src/metrics/amap.rs`). Each maps metric names to signed counts.
- `Metrics` (behind a read-write lock) and `CmapMetrics` (a sharded concurrent map) insert 0 for an absent name, then add or subtract 1.
- `AmapMetrics` fixes its names when it is built, with one atomic counter per name. `inc` or `dec` of an unknown name fails with "Key not found" and changes nothing. Its `clone` shares the counters.

The locks, shards and atomics are modelled as plain sequential state:
- a class with a `map<string, int>` field for the first two stores;
- a constant map from name to mutable `Counter` object for the third, so that sharing between clones is real aliasing.

Each `Display` walks its hash map in an unspecified order. The model therefore picks each next key nondeterministically. It returns, as a ghost, the order it used, which is proved to list every key exactly once.

Modules:
- `Outcomes`: the `Result` type.
- `Text`: decimal rendering of integers, and its parser used as the round-trip partner.
- `Matrices`
- `Counters`: the table-update functions shared by `Metrics` and `Cmap`.
- `Entries`: the `key: value` listing shared by all three `Display`s.
- `Metrics`
- `Cmap`
- `Amap`

### Notes on the source

- The comment above `Display::fmt` (src/matrix.rs:56) shows `{1 2 3, 4 5 6}`. The code writes `{1 2 3 ,4 5 6 }`: a space after every element and a comma directly after each row but the last. The model follows the code.

## Model

| member | source | states |
|---|---|---|
| Matrices.New | src/matrix.rs:43-49 | the matrix keeps the buffer and both dimensions exactly as given; no length check is made |
| Matrices.ExampleNew | src/matrix.rs:100-104 | `new([1..6], 2, 3)` keeps `[1..6]`, and a 2-element buffer for a 2×3 shape is accepted although not well formed |
| Matrices.Product | src/matrix.rs:26-39 | the specified product has `a.row` rows, `b.col` columns and a buffer of exactly `a.row * b.col` cells |
| Matrices.ProductShape | src/matrix.rs:35-39 | on success the result has `row = a.row`, `col = b.col` and `a.row * b.col` elements (ordinary multiplication) |
| Matrices.ProductCell | src/matrix.rs:27-33 | cell `i*b.col+j` (stated both with `Index` and in plain arithmetic) is in range and equals the sum over k < a.col of `a.data[i*a.col+k] * b.data[k*b.col+j]` |
| Matrices.Multiply | src/matrix.rs:18-40 | it fails exactly when `a.col != b.row`, with the mismatch message; otherwise it returns the specified product, built in place in a zero-initialised array |
| Matrices.FillRow | src/matrix.rs:28-32 | after row i, every cell before row i+1 holds its dot product and every later cell is still zero |
| Matrices.AccumulateCell | src/matrix.rs:29-31 | the k loop adds the full dot product into cell (i, j) and writes no other index |
| Matrices.ExampleProduct | src/matrix.rs:88-97 | [1..6] as 2×3 times [1..6] as 3×2 is [22, 28, 49, 64] as 2×2 |
| Matrices.RowOf | src/matrix.rs:59-61 | row i, as `Display` reads it, has exactly `col` elements |
| Matrices.RowOfAt | src/matrix.rs:61 | element j of row i is `data[i*col+j]`, and that index is in range |
| Matrices.RowTexts | src/matrix.rs:59-62 | there is one row text per matrix row |
| Matrices.Display | src/matrix.rs:57-69 | the loop writes exactly the specified rendering, `Render(m)` |
| Matrices.WriteRow | src/matrix.rs:60-62 | the inner loop writes each element of row i followed by one space |
| Matrices.RenderIsBracedJoin | src/matrix.rs:58-67 | the rendering is `{`, the row texts joined by `,` (none after the last row), then `}` |
| Matrices.WrittenAll | src/matrix.rs:59-66 | after all rows, what has been written is `{` and the rows joined by commas |
| Matrices.WrittenPrefix | src/matrix.rs:59-66 | before the last row, what has been written is `{`, the rows so far joined by commas, and one trailing comma |
| Matrices.CellsTextSpaces | src/matrix.rs:60-62 | a row text holds exactly one space per element |
| Matrices.CellsTextCommas | src/matrix.rs:60-62 | a row text holds no comma |
| Matrices.WrittenCount | src/matrix.rs:59-66 | the commas and spaces in the written prefix are counted exactly |
| Matrices.RenderCounts | src/matrix.rs:57-69 | the rendering holds `row * col` spaces and `row - 1` commas (none for an empty matrix) |
| Matrices.ExampleRows | src/matrix.rs:59-62 | the rows of 2×2 [22,28,49,64] render as `22 28 ` and `49 64 ` |
| Matrices.ExampleDisplay | src/matrix.rs:57-69 | 2×2 [22,28,49,64] renders as `{22 28 ,49 64 }` |
| Matrices.DebugText | src/matrix.rs:76-78 | `Debug` output opens with `Matrix(row=` and closes with `)` |
| Matrices.DebugIsHeaderAndBracedJoin | src/matrix.rs:76-78 | for every matrix, `Debug` is `Matrix(row=R, col=C, ` followed by the braced comma-join of the row texts and `)` |
| Matrices.DebugFields | src/matrix.rs:77 | in a text of `Debug`'s shape, the row numeral, `, col=`, the column numeral, `, ` and the body each sit at fixed offsets |
| Matrices.DebugDimensionsParse | src/matrix.rs:77 | for every matrix, the header holds the decimal renderings of `row` and `col`, which parse back to those counts, and the `Display` output sits between the header and the final `)` |
| Matrices.ExampleDebug | src/matrix.rs:76-78 | its `Debug` text is `Matrix(row=2, col=2, {22 28 ,49 64 })` |
| Text.NatToStringDigits | src/matrix.rs:77 | a dimension renders as a non-empty string of decimal digits, one digit exactly when it is below 10 |
| Text.IntToStringNumeral | src/matrix.rs:61 | an element renders as a numeral that starts with `-` exactly when it is negative |
| Text.ParseNatToString | src/matrix.rs:77 | parsing the rendering of a natural number gives it back |
| Text.ParseIntToString | src/matrix.rs:61 | parsing the rendering of an element gives it back, so the rendering loses nothing |
| Text.NumeralHasNoSeparator | src/matrix.rs:61-64 | no character of a rendered element is a space or a comma, so the separators are unambiguous |
| Counters.OrInsertZero | src/metrics.rs:24 | `entry(key).or_insert(0)` adds `key` at 0 when it is absent and changes no existing count |
| Counters.AddToEntry | src/metrics.rs:24-25 | the key set gains only `key`, `key` gets its old count (or 0) plus delta, and other counts are unchanged |
| Counters.Incremented | src/metrics.rs:22-27 | `inc(k)` sets k to 1 when it was absent and to old+1 otherwise; no other entry changes and no key is removed |
| Counters.Decremented | src/metrics.rs:29-34 | `dec(k)` sets k to -1 when it was absent and to old-1 otherwise; no other entry changes and no key is removed |
| Counters.IncThenDec | src/metrics.rs:22-34 | `inc(k)` then `dec(k)` restores every count, with k now present at 0 if it was absent |
| Counters.DecThenInc | src/metrics.rs:22-34 | `dec(k)` then `inc(k)` does the same |
| Counters.UpdatesCommute | src/metrics.rs:22-34 | updates of two different keys give the same table in either order |
| Counters.KeysGrowByAtMostOne | src/metrics/cmap.rs:20-30 | the key set only grows, by exactly one key when `k` was absent and by none otherwise |
| Metrics.Metrics.constructor | src/metrics.rs:16-20 | a new store is empty |
| Metrics.Metrics.Inc | src/metrics.rs:22-27 | always `Ok`, and the new table is `Incremented(old table, key)` |
| Metrics.Metrics.Dec | src/metrics.rs:29-34 | always `Ok`, and the new table is `Decremented(old table, key)` |
| Metrics.Metrics.Snapshot | src/metrics.rs:36-41 | returns `Ok` of a map equal to the current table, and changes nothing |
| Metrics.Metrics.Display | src/metrics.rs:44-52 | the output is one `key: value, ` fragment per entry, in an order that lists every key once |
| Metrics.IncThenDecOnStore | src/metrics.rs:22-34 | calling `Inc` then `Dec` on a store leaves the table of `OrInsertZero(old table, key)` |
| Cmap.CmapMetrics.constructor | src/metrics/cmap.rs:14-18 | a new store is empty |
| Cmap.CmapMetrics.Inc | src/metrics/cmap.rs:20-24 | always `Ok`; inserts 0 if absent, then adds 1; other keys untouched |
| Cmap.CmapMetrics.Dec | src/metrics/cmap.rs:26-30 | always `Ok`; inserts 0 if absent, then subtracts 1; other keys untouched |
| Cmap.CmapMetrics.Display | src/metrics/cmap.rs:33-41 | the output is one `key: value` line per entry, in an order that lists every key once |
| Entries.RenderEntries | src/metrics/cmap.rs:35-39 | the loop visits every key exactly once, in some order, appending that key's fragment |
| Entries.Fragments | src/metrics/cmap.rs:36-38 | there is one fragment per listed key |
| Entries.PieceAt | src/metrics/cmap.rs:36-38 | in a concatenation of pieces, each piece sits unchanged at its offset |
| Entries.FragmentAt | src/metrics.rs:47-49 | every listed key's `key: value` fragment, with its current value, appears intact in the output |
| Entries.ListingSize | src/metrics/amap.rs:53-55 | a listing of the key set has exactly as many entries as there are keys |
| Amap.Counter.constructor | src/metrics/amap.rs:17 | a new counter holds the given value |
| Amap.AmapMetrics.Values | src/metrics/amap.rs:8 | the reading of the store has exactly its key set, and each key's counter value |
| Amap.AmapMetrics.constructor | src/metrics/amap.rs:12-21 | exactly one fresh counter per distinct name, all distinct and all at 0 |
| Amap.AmapMetrics.Share | src/metrics/amap.rs:42-48 | a handle on the given map of counters; only `Clone` uses it, on a map that `new` built |
| Amap.AmapMetrics.Inc | src/metrics/amap.rs:23-30 | an unknown key gives `Err("Key not found")` and changes no counter; a known key's counter gains exactly 1 and nothing else changes |
| Amap.AmapMetrics.Dec | src/metrics/amap.rs:32-39 | an unknown key gives `Err("Key not found")` and changes no counter; a known key's counter loses exactly 1 and nothing else changes |
| Amap.AmapMetrics.Clone | src/metrics/amap.rs:42-48 | the clone is a new handle on the very same map of counters, so it is valid exactly when the original is |
| Amap.AmapMetrics.Display | src/metrics/amap.rs:50-58 | one `key: value` line per counter, in an order that lists every key once, then one more newline |
| Amap.IncThroughClone | src/metrics/amap.rs:42-48 | an `Inc` through a clone is seen, as exactly +1, through the original handle |

## Left out

- Integer widths are not modelled. Elements, counts and dimensions are unbounded `int`/`nat`, so the following are not modelled:
  - `i64` overflow in the matrix arithmetic and in `+= 1`/`-= 1` (a panic in debug builds);
  - wrap-around of `fetch_add`/`fetch_sub`;
  - `usize` overflow of `a.row * b.col`.
- The element type is fixed to `int`, with `Default` = 0. The trait bounds (`Debug`, `Copy`, `Default`, `Add`, `AddAssign`, `Mul`) are not modelled.
- Matrices.Multiply requires a long enough buffer in each operand whenever the loops read it. A too-short buffer makes the source panic on an index. That panic is not modelled as an error outcome.
- Matrices.Display and Matrices.DebugText likewise require the buffer to cover `row * col` elements.
- Each nested loop is written as a method per loop level: `Multiply` → `FillRow` → `AccumulateCell`, and `Display` → `WriteRow`. The order of updates is the source's.
- `fmt::Formatter` errors are not modelled. The matrix `Display` returns the string it would write.
- The whole-map lock, the sharded map and the atomics are not modelled, and neither are interleavings of concurrent callers or `Ordering::Relaxed`. Each store is sequential state.
- The `RwLock` poisoning error paths (src/metrics.rs:23, 30, 38, 46) are not modelled, so `Metrics` `inc`, `dec` and `snapshot` always succeed.
- `Arc` sharing of `Metrics` and `CmapMetrics` through their derived `Clone` is not modelled. Only the `AmapMetrics` clone, which the source writes out, is.
- Hash-map iteration order is not modelled. Each `Display` chooses its order nondeterministically, and its contract holds for every order.
- The `anyhow` error type is only modelled as the message carried by `Err`.
- The repository's example programs are not part of this model. They are thread spawning, sleeps, channel demonstrations and a TCP responder.
