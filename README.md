# Concurrent dense-matrix multiplication: a Dafny model

This project models the core of a small Rust crate:

- **Vectors**: a `Vector` wrapper and `dot_product`, which checks that the lengths match and then accumulates `sum += a[i] * b[i]` from the default value.
- **Matrices**: a row-major `Matrix` whose cell (i, j) sits at `data[i * col + j]`.
- **`multiply`**: rejects `a.col != b.row`. Otherwise it turns every result cell into a task: row i of `a` as a contiguous slice, column j of `b` as a strided gather (`step_by(b.col)`), and the destination index `i * b.col + j`. Each task is sent to worker `idx % 4`, and the tagged replies are reduced into a buffer of `a.row * b.col` zeros.
- **The `*` operator**: panics when `multiply` fails.
- **`Display` and `Debug`**: render a matrix as `{a b, c d}` and `Matrix(row=R, col=C, {a b, c d})`.
- **`Metrics`**: a counter table from names to signed counters, with `inc`, `dec` and `snapshot`.

The element type `T` is modelled as unbounded `int`, and its `Default` is 0.

Files:

- `wrappers.dfy`: the `Result` and `Option` types.
- `vector.dfy`: `Vectors`, the vector and the dot product.
- `matrix.dfy`: `Matrices`, the layout, the row slice, the column gather and the mathematical product (`Product`, built from the triple-loop cell sum).
- `multiply.dfy`: `MatrixMultiply`, the worker assignment, the worker's task handler, the dispatch loops, the tagged-write reduce, `multiply` and `*`.
- `format.dfy`: `MatrixFormat`, the display and debug text.
- `decimal.dfy`: `Decimal`, the decimal text of integers used for elements and dimensions.
- `metrics.dfy`: `MetricsTable`, the counter table.

The proofs that carry the model are the loop invariants of `Dispatch`, `Display`, `WriteRow` and `DotProduct`, the bridge lemma `RowDotColumnIsCell` and the reduce lemmas `ApplyWritesHit` and `ReduceOrderIndependent`. The lemmas about decimal text and the algebra of `Dot` are supporting facts.

How the operations are specified:

- **`DotProduct`**: proved against the recursive `Dot`.
- **`Multiply`**: proved to return `Product(a, b)`. It gathers columns with the corrected `ColumnGather`. `MultiplyAsWritten` uses the gather as the source writes it and panics where the source does (see Findings). `Product`'s cells are the independent sum `sum_k a[i][k] * b[k][j]`. The lemma `RowDotColumnIsCell` connects them: the dot product of the row slice with the gathered column is that sum.
- **`Display`**: proved to write `Render(m)`. `Render` is defined by joining cell texts with " " and row texts with ", ", not by the loop's "separator unless last" tests.
- **`Inc` and `Dec`**: specified by the pure function `Adjusted`.

## Model

| member | source | states |
|---|---|---|
| `Vectors.NewVector` | src/vector.rs:10-24 | `Vector::new` keeps the elements: length and indexing through `Deref` read the given data |
| `Vectors.DotProduct` | src/vector.rs:37-51 | fails (with `LengthMismatch`) exactly when the lengths differ; otherwise returns the dot product `Dot(a, b)`, the loop keeping `sum == Dot` of the first i elements |
| `Vectors.DotOfEmpty` | src/vector.rs:45-50 | two empty vectors give the additive identity 0 |
| `Vectors.DotFront` | src/vector.rs:45-48 | the accumulated sum equals the front-first sum `a[0]*b[0] + Dot(a[1..], b[1..])` |
| `Vectors.DotSymmetric` | src/vector.rs:45-48 | the dot product is symmetric in its operands |
| `Vectors.DotAppend` | src/vector.rs:45-48 | the dot product of concatenations is the sum of the parts' dot products |
| `Vectors.DotExample` | src/vector.rs:37-51 | `[1,2,3] . [4,5,6] == 32` |
| `Matrices.NewMatrix` | src/matrix.rs:63-69 | `Matrix::new` stores data and dimensions as given; well-formedness holds exactly when `len == row * col` (no check is made) |
| `Matrices.NewMatrixCell` | src/matrix.rs:63-69 | for data of the right length, cell (i, j) is `data[i * col + j]` |
| `Matrices.IndexInRange` | src/matrix.rs:192 | a row-major index `i * col + j` with `i < row`, `j < col` lies below `row * col` |
| `Matrices.IndexDivMod` | src/matrix.rs:156 | row and column are recovered from `i * c + j` by division and remainder |
| `Matrices.IndexSplit` | src/matrix.rs:124-125 | every index below `r * c` splits into a row below r and a column below c |
| `Matrices.RowSlice` | src/matrix.rs:144 | the slice `a.data[a.col*i .. a.col*(i+1)]` is in bounds, has length `a.col`, and its k-th element is cell (i, k) |
| `Matrices.StepByAt` | src/matrix.rs:146-150 | the k-th element produced by `step_by(step)` is `s[k * step]` whenever that index is in range |
| `Matrices.StepByLength` | src/matrix.rs:146-150 | `step_by(step)` over a sequence whose length lies in `((n-1)*step, n*step]` produces n elements |
| `Matrices.ColumnGather` | src/matrix.rs:146-151 | the gathered column j of a well-formed b has length `b.row` and its k-th element is cell (k, j) of b |
| `Matrices.ColumnGatherAsWritten` | src/matrix.rs:146-150 | the gather `b.data[j..].iter().step_by(b.col)` as written: on a well-formed b it panics exactly when b has no rows and j > 0; otherwise it yields `ColumnGather(b, j)` |
| `Matrices.ColumnGatherAsWrittenExample` | src/matrix.rs:146 | for the 0x2 matrix and column 1 the gather as written panics while the corrected column is empty |
| `Matrices.ProductDataAt` | src/matrix.rs:135-139 | slot `i * b.col + j` of the product data holds the cell sum (i, j) |
| `Matrices.Product` | src/matrix.rs:174-178 | the product has `a.row` rows, `b.col` columns, `a.row * b.col` elements, and cell (i, j) equals `sum_k a[i][k] * b[k][j]` |
| `Matrices.RowDotColumnIsCell` | src/matrix.rs:144-153 | row slice and gathered column have equal length, so the inner dot product never fails, and their dot product is cell (i, j) of the product |
| `Matrices.ProductExample2x3` | src/matrix.rs:226-232 | `[1..6]` (2x3) times `[1..6]` (3x2) is `[22, 28, 49, 64]` |
| `Matrices.ProductExample2x2` | src/matrix.rs:242-245 | `[1,2,3,4]` (2x2) squared is `[7, 10, 15, 22]` |
| `MatrixMultiply.DestIndexInRange` | src/matrix.rs:156 | every destination index lies in `0 .. a.row * b.col` |
| `MatrixMultiply.DestIndexInjective` | src/matrix.rs:156 | distinct (i, j) cells have distinct destination indices |
| `MatrixMultiply.DestIndexCovers` | src/matrix.rs:124-125 | every slot of the result buffer is the destination of some cell |
| `MatrixMultiply.WorkerFor` | src/matrix.rs:161 | the worker chosen for a task is below `NUM_THREADS` (4) and congruent to the index modulo 4 |
| `MatrixMultiply.WorkerRoundRobin` | src/matrix.rs:161 | consecutive destination indices go to consecutive workers, round-robin |
| `MatrixMultiply.HandleTask` | src/matrix.rs:101-110 | a worker replies with the task's own destination index and the dot product of its row and column; it fails exactly when their lengths differ |
| `MatrixMultiply.ApplyWrites` | src/matrix.rs:169-172 | the tagged writes keep the buffer's length |
| `MatrixMultiply.ApplyWritesHit` | src/matrix.rs:169-172 | with distinct targets, every reply's value ends up in its own slot |
| `MatrixMultiply.ApplyWritesMiss` | src/matrix.rs:169-172 | a slot that no reply targets keeps its default value |
| `MatrixMultiply.ReduceOrderIndependent` | src/matrix.rs:169-172 | any rearrangement of replies with distinct targets gives the same buffer, so the result does not depend on arrival order |
| `MatrixMultiply.Reduce` | src/matrix.rs:169-172 | the reduce loop leaves the buffer equal to `ApplyWrites` of the replies, in order |
| `MatrixMultiply.SendCell` | src/matrix.rs:144-163 | one loop iteration: the task for cell (i, j) carries destination `i * b.col + j`, and the worker's reply is that destination with cell (i, j) of the product |
| `MatrixMultiply.SendCellAsWritten` | src/matrix.rs:144-163 | one loop iteration as written: panics with the slice message exactly when b has no rows and j > 0; otherwise replies as `SendCell` does |
| `MatrixMultiply.ProductRepliesSnoc` | src/matrix.rs:156-164 | the reply for destination n follows the first n replies of the dispatch |
| `MatrixMultiply.Dispatch` | src/matrix.rs:132-166 | the nested loops, with the corrected gather, produce exactly `ProductReplies(a, b, a.row * b.col)`: `a.row * b.col` replies in order, reply t carrying destination t and cell t of the product |
| `MatrixMultiply.DispatchRowAsWritten` | src/matrix.rs:133-165 | the inner loop as written, for row i: panics exactly when a has a row, b has none and b has a second column (reached at row 0, column 1); otherwise it extends the replies of rows before i to those of rows up to i |
| `MatrixMultiply.DispatchAsWritten` | src/matrix.rs:132-166 | the nested loops as written panic exactly when a has a row, b has none and b has a second column, with the slice message for start 1 and length 0; otherwise they produce the same replies as `Dispatch` |
| `MatrixMultiply.AssembleProduct` | src/matrix.rs:169-178 | the buffer of `a.row * b.col` zeros (lines 124-125) after the reduce of the replies `ProductReplies(a, b, a.row * b.col)`, with `a.row` rows and `b.col` columns, is `Product(a, b)` |
| `MatrixMultiply.Multiply` | src/matrix.rs:83-179 | returns `DimensionMismatch` exactly when `a.col != b.row`, with nothing computed; otherwise returns `Product(a, b)`, with the corrected gather |
| `MatrixMultiply.MultiplyAsWritten` | src/matrix.rs:83-179 | as written: `Err(DimensionMismatch)` exactly when `a.col != b.row`; a panic exactly when the dimensions match, a has a row, b has none and b has a second column; otherwise `Ok(Product(a, b))` |
| `MatrixMultiply.MultiplyAsWrittenExample` | src/matrix.rs:146 | 1x0 times 0x2 panics with "range start index 1 ..." as written, and the corrected `Multiply` gives the 1x2 zero matrix |
| `MatrixMultiply.Mul` | src/matrix.rs:78-80 | `*` over the corrected `Multiply`: panics with "Matrix multiply error: " followed by the error text exactly when the dimensions mismatch, and otherwise yields the product |
| `MatrixMultiply.MulAsWritten` | src/matrix.rs:78-80 | `*` as written: panics exactly when the dimensions mismatch (with the `expect` message) or when the as-written gather panics (with the slice message); otherwise yields the product |
| `MatrixFormat.WriteRow` | src/matrix.rs:191-196 | the inner loop writes the row's cell texts joined by single spaces |
| `MatrixFormat.Display` | src/matrix.rs:187-203 | the text written is `{`, the rows joined by ", " (each row's cells joined by " "), then `}` |
| `MatrixFormat.RenderNoRows` | src/matrix.rs:189-201 | a matrix with no rows displays as `{}` |
| `MatrixFormat.RenderOneRow` | src/matrix.rs:189-201 | a one-row matrix displays as its cells joined by spaces, in braces |
| `MatrixFormat.RenderTwoByTwo` | src/matrix.rs:189-201 | a 2x2 matrix displays as `{a b, c d}` |
| `MatrixFormat.DisplayExample` | src/matrix.rs:246 | the 2x2 product `[7, 10, 15, 22]` displays as `{7 10, 15 22}` |
| `MatrixFormat.DisplayExampleProduct` | src/matrix.rs:234 | `[22, 28, 49, 64]` (2x2) displays as `{22 28, 49 64}` |
| `MatrixFormat.DebugText` | src/matrix.rs:212-214 | the debug text starts with `Matrix(row=` and ends with the display text followed by `)` |
| `MatrixFormat.DebugShowsDimensions` | src/matrix.rs:213 | after `Matrix(row=` come the row count, `, col=`, the column count and `, `; the text is exactly 20 characters longer than the two counts and the display text together, so with `DebugText` it fixes the whole debug text |
| `MatrixFormat.DebugExample` | src/matrix.rs:234 | the 2x2 product `[22, 28, 49, 64]` debug-prints as `Matrix(row=2, col=2, {22 28, 49 64})` |
| `Decimal.NatTextDigits` | src/matrix.rs:213 | a dimension is written as decimal digits with no leading zero |
| `Decimal.NatTextRoundTrip` | src/matrix.rs:213 | the dimension can be read back from its text |
| `Decimal.NatTextInjective` | src/matrix.rs:213 | distinct dimensions are written differently |
| `Decimal.IntTextSign` | src/matrix.rs:192 | an element's text is non-empty and starts with '-' exactly when the element is negative |
| `MetricsTable.Adjusted` | src/metrics.rs:25-33 | after `entry(key).or_insert(0)` and an adjustment by delta, the key is present with its old counter (0 if absent) plus delta; the other entries are unchanged and no other key is added |
| `MetricsTable.Metrics.constructor` | src/metrics.rs:19-23 | `Metrics::new` gives an empty table |
| `MetricsTable.DefaultMetrics` | src/metrics.rs:11-15 | `Default` gives a fresh, empty table |
| `MetricsTable.Metrics.Inc` | src/metrics.rs:25-28 | `inc` makes the table `Adjusted(old table, key, 1)` |
| `MetricsTable.Metrics.Dec` | src/metrics.rs:30-33 | `dec` makes the table `Adjusted(old table, key, -1)` |
| `MetricsTable.Metrics.Snapshot` | src/metrics.rs:35-37 | the snapshot has exactly the current keys with their current counters, and reads without modifying |
| `MetricsTable.AdjustAbsent` | src/metrics.rs:25-33 | on an absent key, `inc` leaves 1 and `dec` leaves -1 |
| `MetricsTable.AdjustTwice` | src/metrics.rs:25-33 | two adjustments of the same counter add up |
| `MetricsTable.IncThenDec` | src/metrics.rs:25-33 | `inc` then `dec` restores the previous counter, or leaves the key at 0 if it was absent |
| `MetricsTable.AdjustCommutes` | src/metrics.rs:25-33 | adjustments of any two counters commute |

## Left out

- Worker threads and channels (src/matrix.rs:97-118, 158-164, 170) are not modelled. This covers `mpsc`/`oneshot`, `thread::spawn`, the `eprintln!`/`eprint!` on a failed send, and `recv()` errors. A worker is a direct call of `HandleTask`; its assignment `idx % NUM_THREADS` is kept as `WorkerFor`. Concurrency and message interleaving are outside this model.
- `Multiply` does not model a worker failure surfacing as a `recv()` error. Under the well-formedness precondition the row and column always have equal length (`RowDotColumnIsCell`), so that path cannot be taken.
- `Multiply` and `Display` require `data.len() == row * col`, because `Matrix::new` does not check it. Malformed matrices are not modelled. What the source does with them:
  - `Display` reads `data[i * col + j]` (src/matrix.rs:192). It indexes out of bounds when the data is shorter than `row * col`, and prints the first `row * col` elements when it is longer.
  - In `multiply`, when `a.row == 0` or `b.col == 0` no task is built and the result is `Ok`, whatever the lengths.
  - Otherwise, an `a.data` shorter than `a.row * a.col` makes the row slice (src/matrix.rs:144) go out of bounds, and a longer one is read only in its leading elements.
  - With a `b.data` of the wrong length, the slice `b.data[j..]` (src/matrix.rs:146) panics when `j > b.data.len()`.
  - Otherwise some gathered column is shorter or longer than `a.col`. For such a column the worker's `dot_product` fails (src/vector.rs:41-43), and `rx.recv()?` (src/matrix.rs:170) returns an error. Columns of the right length are multiplied as usual.
- Dispatch: gathers columns with the corrected `ColumnGather`, so it never panics. Where the source panics (a has a row, b has none, b has a second column), the as-written behaviour is `DispatchAsWritten`.
- Multiply: uses the corrected gather, so it returns the zero matrix of the right shape where the source panics at src/matrix.rs:146. The as-written behaviour is `MultiplyAsWritten`.
- Mul: uses the corrected `Multiply`, so it does not panic on the gather. The as-written `*` is `MulAsWritten`.
- Mul and MulAsWritten: the `expect` message is modelled as the prefix, ": ", then the error's text. The backtrace that anyhow's Debug output may append is not modelled.
- The slice panic message is Rust's standard text for an out-of-range start index, modelled as `SliceStartPanic`. The panic location is not modelled.
- The element type is unbounded `int`: the overflow panics of `sum += ...` and `*count += 1` on fixed-width integers are not modelled, and `i64` counters are unbounded.
- Element text is modelled as plain decimal notation. Other `Display` implementations for `T` are not modelled, and the `fmt::Result` errors of a failing formatter are not either.
- `Metrics` is modelled with a Dafny `map`: `HashMap` hashing and iteration order are not modelled. `impl Into<String>` keys are plain strings.
- src/metrics/amap.rs and the programs under examples/ are not part of this model: they are concurrency and printing demonstrations.

## Findings

| source | as written | input that shows it | evidently intended | confidence | as-written member | corrected member |
|---|---|---|---|---|---|---|
| src/matrix.rs:146 | the column gather slices `b.data[j..]`, which panics when `j > b.data.len()`; a compatible `b` with no rows has empty data, so every column `j >= 1` panics | `a` 1x0 (data `[]`) times `b` 0x2 (data `[]`): the dispatch reaches (0, 1) and slices `[][1..]` | the product of an m x 0 and a 0 x n matrix is the m x n zero matrix, as for every other compatible pair | high (not executed) | `MatrixMultiply.MultiplyAsWrittenExample` | `MatrixMultiply.Multiply` |
