/**
 * `multiply` and the `*` operator of src/matrix.rs. The worker threads and
 * channels are replaced by a direct call of the worker's task handler; what
 * remains is the dispatch loop that tags every task with its destination
 * index and the reduce step that writes each tagged reply into the buffer.
 */
module MatrixMultiply {
  import opened Wrappers
  import opened Vectors
  import opened Matrices
  import opened Decimal

  /** Size of the worker pool. */
  const NUM_THREADS: nat := 4

  /** Errors raised by `multiply`. */
  datatype MatrixError = DimensionMismatch

  /** The text `multiply` gives its error. */
  function ErrorText(e: MatrixError): string {
    match e
    case DimensionMismatch => "Matrix dimensions do not match error: a.col != b.row"
  }

  /** A task: destination index, row of a and column of b. */
  datatype MsgInput = MsgInput(idx: nat, row: Vector, col: Vector)

  /** A reply: the destination index the task carried and the computed dot product. */
  datatype MsgOutput = MsgOutput(idx: nat, value: int)

  /** Outcome of an operation that may panic: its value, or the panic message. */
  datatype Outcome<T> = Returned(value: T) | Panicked(message: string)

  /** The message of the panic raised by slicing `s[start..]` past the end of `s`. */
  function SliceStartPanic(start: nat, len: nat): string {
    "range start index " + NatText(start) + " out of range for slice of length " + NatText(len)
  }

  // ---------------------------------------------------------------------------
  // Destination indices and worker assignment

  /** Destination index of cell (i, j) in a result with `cols` columns. */
  function DestIndex(i: nat, j: nat, cols: nat): nat {
    i * cols + j
  }

  /** Every destination index lies inside the result buffer. */
  lemma DestIndexInRange(i: nat, j: nat, rows: nat, cols: nat)
    requires i < rows && j < cols
    ensures DestIndex(i, j, cols) < rows * cols
  {
    IndexInRange(i, j, rows, cols);
  }

  /** Distinct cells have distinct destination indices. */
  lemma DestIndexInjective(i: nat, j: nat, i': nat, j': nat, cols: nat)
    requires j < cols && j' < cols
    requires DestIndex(i, j, cols) == DestIndex(i', j', cols)
    ensures i == i' && j == j'
  {
    IndexDivMod(i, j, cols);
    IndexDivMod(i', j', cols);
  }

  /** Every slot of the result buffer is the destination of some cell. */
  lemma DestIndexCovers(n: nat, rows: nat, cols: nat)
    requires n < rows * cols
    ensures exists i: nat, j: nat :: i < rows && j < cols && DestIndex(i, j, cols) == n
  {
    IndexSplit(n, rows, cols);
    assert DestIndex(n / cols, n % cols, cols) == n;
  }

  /** The worker a task is sent to: its destination index modulo the pool size. */
  function WorkerFor(idx: nat): (w: nat)
    ensures w < NUM_THREADS
    ensures (idx - w) % NUM_THREADS == 0
  {
    idx % NUM_THREADS
  }

  /** Consecutive destination indices go to consecutive workers, round-robin. */
  lemma WorkerRoundRobin(idx: nat)
    ensures WorkerFor(idx + 1) == (WorkerFor(idx) + 1) % NUM_THREADS
  {
  }

  // ---------------------------------------------------------------------------
  // The worker

  /** What a worker does with one task: the dot product, tagged with the task's index. */
  method HandleTask(msg: MsgInput) returns (r: Result<MsgOutput, VectorError>)
    ensures msg.row.Len() == msg.col.Len() ==>
              r == Ok(MsgOutput(msg.idx, Dot(msg.row.data, msg.col.data)))
    ensures msg.row.Len() != msg.col.Len() ==> r == Err(LengthMismatch)
  {
    var value :- DotProduct(msg.row, msg.col);
    return Ok(MsgOutput(msg.idx, value));
  }

  // ---------------------------------------------------------------------------
  // The reduce step: tagged writes

  predicate WritesInBounds(ws: seq<MsgOutput>, n: nat) {
    forall t :: 0 <= t < |ws| ==> ws[t].idx < n
  }

  /** No two replies target the same slot. */
  predicate DistinctTargets(ws: seq<MsgOutput>) {
    forall s, t :: 0 <= s < t < |ws| ==> ws[s].idx != ws[t].idx
  }

  /** The buffer after `data[w.idx] = w.value` for each reply w, in order. */
  function ApplyWrites(buf: seq<int>, ws: seq<MsgOutput>): (r: seq<int>)
    requires WritesInBounds(ws, |buf|)
    ensures |r| == |buf|
    decreases |ws|
  {
    if ws == [] then buf
    else
      var w := ws[|ws| - 1];
      ApplyWrites(buf, ws[..|ws| - 1])[w.idx := w.value]
  }

  /** With distinct targets, every reply's value ends up in its own slot. */
  lemma {:induction false} ApplyWritesHit(buf: seq<int>, ws: seq<MsgOutput>, t: nat)
    requires WritesInBounds(ws, |buf|) && DistinctTargets(ws) && t < |ws|
    ensures ApplyWrites(buf, ws)[ws[t].idx] == ws[t].value
    decreases |ws|
  {
    if t < |ws| - 1 {
      ApplyWritesHit(buf, ws[..|ws| - 1], t);
    }
  }

  /** A slot that no reply targets keeps its initial value. */
  lemma {:induction false} ApplyWritesMiss(buf: seq<int>, ws: seq<MsgOutput>, p: nat)
    requires WritesInBounds(ws, |buf|) && p < |buf|
    requires forall t :: 0 <= t < |ws| ==> ws[t].idx != p
    ensures ApplyWrites(buf, ws)[p] == buf[p]
    decreases |ws|
  {
    if ws != [] {
      ApplyWritesMiss(buf, ws[..|ws| - 1], p);
    }
  }

  /**
   * The reduce does not depend on the order in which replies are taken:
   * any rearrangement of replies with distinct targets gives the same buffer.
   */
  lemma ReduceOrderIndependent(buf: seq<int>, ws: seq<MsgOutput>, vs: seq<MsgOutput>)
    requires WritesInBounds(ws, |buf|) && DistinctTargets(ws) && DistinctTargets(vs)
    requires multiset(ws) == multiset(vs)
    ensures WritesInBounds(vs, |buf|)
    ensures ApplyWrites(buf, ws) == ApplyWrites(buf, vs)
  {
    forall u | 0 <= u < |vs|
      ensures vs[u] in ws
    {
      assert vs[u] in multiset(vs);
    }
    forall t | 0 <= t < |ws|
      ensures ws[t] in vs
    {
      assert ws[t] in multiset(ws);
    }
    var l, r := ApplyWrites(buf, ws), ApplyWrites(buf, vs);
    forall p | 0 <= p < |buf|
      ensures l[p] == r[p]
    {
      if t :| 0 <= t < |ws| && ws[t].idx == p {
        var u :| 0 <= u < |vs| && vs[u] == ws[t];
        ApplyWritesHit(buf, ws, t);
        ApplyWritesHit(buf, vs, u);
      } else {
        forall u | 0 <= u < |vs|
          ensures vs[u].idx != p
        {
          var t :| 0 <= t < |ws| && ws[t] == vs[u];
        }
        ApplyWritesMiss(buf, ws, p);
        ApplyWritesMiss(buf, vs, p);
      }
    }
  }

  /** The reduce loop: each reply written at its tagged index. */
  method Reduce(data: array<int>, receives: seq<MsgOutput>)
    requires WritesInBounds(receives, data.Length)
    modifies data
    ensures data[..] == ApplyWrites(old(data[..]), receives)
  {
    ghost var initial := data[..];
    for t := 0 to |receives|
      invariant data[..] == ApplyWrites(initial, receives[..t])
    {
      assert receives[..t + 1][..t] == receives[..t];
      var recv := receives[t];
      data[recv.idx] := recv.value;
    }
    assert receives[..|receives|] == receives;
  }

  // ---------------------------------------------------------------------------
  // multiply and *

  /** The first n replies of a dispatch: reply t carries destination t and cell t of the product. */
  function ProductReplies(a: Matrix, b: Matrix, n: nat): seq<MsgOutput>
    requires Compatible(a, b) && n <= a.row * b.col
  {
    seq(n, t requires 0 <= t < n => MsgOutput(t, ProductData(a, b)[t]))
  }

  /** The reply for destination n follows the first n replies. */
  lemma ProductRepliesSnoc(a: Matrix, b: Matrix, n: nat)
    requires Compatible(a, b) && n < a.row * b.col
    ensures ProductReplies(a, b, n + 1) == ProductReplies(a, b, n) + [MsgOutput(n, ProductData(a, b)[n])]
  {
  }

  /**
   * One cell (i, j) of the dispatch loops: the row slice of a and the gathered
   * column of b become a task tagged with destination `i * b.col + j`, sent
   * to worker `WorkerFor(idx)`; the reply carries that destination and cell
   * (i, j) of the product.
   */
  method SendCell(a: Matrix, b: Matrix, i: nat, j: nat, gathered: seq<int>) returns (reply: MsgOutput)
    requires Compatible(a, b) && i < a.row && j < b.col
    requires gathered == ColumnGather(b, j)
    ensures reply.idx < a.row * b.col
    ensures reply == MsgOutput(DestIndex(i, j, b.col), Cell(a, b, i, j))
  {
    var row := NewVector(RowSlice(a, i));
    var col := NewVector(gathered);
    var idx := DestIndex(i, j, b.col);
    DestIndexInRange(i, j, a.row, b.col);
    // the task goes to worker `WorkerFor(idx)`, which handles it as below
    var msg := MsgInput(idx, row, col);
    RowDotColumnIsCell(a, b, i, j);
    var result := HandleTask(msg);
    return result.value;
  }

  /**
   * The dispatch loops of `multiply`: for each cell (i, j), row by row, the
   * row slice of a and the column gather of b become a task tagged with
   * destination `i * b.col + j`, sent to worker `WorkerFor(idx)`; its reply
   * is collected in dispatch order.
   */
  method Dispatch(a: Matrix, b: Matrix) returns (receives: seq<MsgOutput>)
    requires Compatible(a, b)
    ensures receives == ProductReplies(a, b, a.row * b.col)
  {
    receives := [];
    for i := 0 to a.row
      invariant i * b.col <= a.row * b.col && receives == ProductReplies(a, b, i * b.col)
    {
      MulMonotone(i + 1, a.row, b.col);
      assert i * b.col + b.col == (i + 1) * b.col;
      for j := 0 to b.col
        invariant i * b.col + j <= a.row * b.col && receives == ProductReplies(a, b, i * b.col + j)
      {
        var reply := SendCell(a, b, i, j, ColumnGather(b, j));
        ProductDataAt(a, b, i, j);
        ProductRepliesSnoc(a, b, i * b.col + j);
        receives := receives + [reply];
      }
    }
  }

  /**
   * Where the dispatch loops of `multiply`, as written, reach a column gather
   * that panics: a has a row, b has none, and b has a second column.
   */
  predicate GatherPanics(a: Matrix, b: Matrix) {
    a.row > 0 && b.row == 0 && b.col > 1
  }

  /**
   * One cell (i, j) of the dispatch loops exactly as written: the gather
   * `ColumnGatherAsWritten` panics when b has no rows and j > 0; otherwise
   * the task is sent as in `SendCell`.
   */
  method SendCellAsWritten(a: Matrix, b: Matrix, i: nat, j: nat) returns (r: Outcome<MsgOutput>)
    requires Compatible(a, b) && i < a.row && j < b.col
    ensures r.Panicked? <==> b.row == 0 && j > 0
    ensures r.Panicked? ==> r.message == SliceStartPanic(j, 0)
    ensures r.Returned? ==> r.value.idx < a.row * b.col
    ensures r.Returned? ==> r.value == MsgOutput(DestIndex(i, j, b.col), Cell(a, b, i, j))
  {
    var gathered := ColumnGatherAsWritten(b, j);
    if gathered.None? {
      assert |b.data| == 0 * b.col;
      return Panicked(SliceStartPanic(j, |b.data|));
    }
    var reply := SendCell(a, b, i, j, gathered.value);
    return Returned(reply);
  }

  /**
   * The inner dispatch loop of `multiply` exactly as written, for row i of
   * a: it gathers with `ColumnGatherAsWritten` and panics at column 1 exactly
   * when `GatherPanics`; otherwise it extends the replies by the row's cells.
   */
  method DispatchRowAsWritten(a: Matrix, b: Matrix, i: nat, receives: seq<MsgOutput>)
    returns (r: Outcome<seq<MsgOutput>>)
    requires Compatible(a, b) && i < a.row
    requires receives == ProductReplies(a, b, i * b.col)
    requires GatherPanics(a, b) ==> i == 0
    ensures r.Panicked? <==> GatherPanics(a, b)
    ensures r.Panicked? ==> r.message == SliceStartPanic(1, 0)
    ensures r.Returned? ==>
              (i + 1) * b.col <= a.row * b.col && r.value == ProductReplies(a, b, (i + 1) * b.col)
  {
    MulMonotone(i + 1, a.row, b.col);
    assert i * b.col + b.col == (i + 1) * b.col;
    var sent := receives;
    for j := 0 to b.col
      invariant i * b.col + j <= a.row * b.col && sent == ProductReplies(a, b, i * b.col + j)
      invariant GatherPanics(a, b) ==> j <= 1
    {
      var cell := SendCellAsWritten(a, b, i, j);
      if cell.Panicked? {
        return Panicked(cell.message);
      }
      ProductDataAt(a, b, i, j);
      ProductRepliesSnoc(a, b, i * b.col + j);
      sent := sent + [cell.value];
    }
    return Returned(sent);
  }

  /**
   * The dispatch loops of `multiply` exactly as written, one row at a time
   * (see `DispatchRowAsWritten`): they panic at cell (0, 1) exactly when
   * `GatherPanics`, and otherwise produce the replies `Dispatch` produces.
   */
  method DispatchAsWritten(a: Matrix, b: Matrix) returns (r: Outcome<seq<MsgOutput>>)
    requires Compatible(a, b)
    ensures r.Panicked? <==> GatherPanics(a, b)
    ensures r.Panicked? ==> r.message == SliceStartPanic(1, 0)
    ensures r.Returned? ==> r.value == ProductReplies(a, b, a.row * b.col)
  {
    var receives := [];
    for i := 0 to a.row
      invariant i * b.col <= a.row * b.col && receives == ProductReplies(a, b, i * b.col)
      invariant GatherPanics(a, b) ==> i == 0
    {
      var row := DispatchRowAsWritten(a, b, i, receives);
      if row.Panicked? {
        return Panicked(row.message);
      }
      receives := row.value;
    }
    return Returned(receives);
  }

  /**
   * The end of `multiply`: a buffer of a.row * b.col zeros, the reduce of the
   * replies into it, and the result matrix with a.row rows and b.col columns.
   */
  method AssembleProduct(a: Matrix, b: Matrix, receives: seq<MsgOutput>) returns (m: Matrix)
    requires Compatible(a, b)
    requires receives == ProductReplies(a, b, a.row * b.col)
    ensures m == Product(a, b)
  {
    var length := a.row * b.col;
    var data := new int[length](_ => 0);
    ghost var zeros := data[..];
    ghost var p := ProductData(a, b);
    Reduce(data, receives);
    forall n | 0 <= n < length
      ensures data[n] == p[n]
    {
      ApplyWritesHit(zeros, receives, n);
    }
    assert data[..] == p;
    return Matrix(data[..], a.row, b.col);
  }

  /**
   * `multiply` exactly as written: the dimension check, then the dispatch
   * loops with the as-written gather, which panic where `GatherPanics`.
   */
  method MultiplyAsWritten(a: Matrix, b: Matrix) returns (r: Outcome<Result<Matrix, MatrixError>>)
    requires a.WellFormed() && b.WellFormed()
    ensures r.Panicked? <==> a.col == b.row && GatherPanics(a, b)
    ensures r.Panicked? ==> r.message == SliceStartPanic(1, 0)
    ensures r.Returned? ==> (r.value.Err? <==> a.col != b.row)
    ensures r.Returned? && r.value.Err? ==> r.value.error == DimensionMismatch
    ensures r.Returned? && a.col == b.row ==> r.value == Ok(Product(a, b))
  {
    if a.col != b.row {
      return Returned(Err(DimensionMismatch));
    }
    var dispatched := DispatchAsWritten(a, b);
    if dispatched.Panicked? {
      return Panicked(dispatched.message);
    }
    var m := AssembleProduct(a, b, dispatched.value);
    return Returned(Ok(m));
  }

  /**
   * `multiply` with the corrected column gather: rejects a.col != b.row;
   * otherwise dispatches one tagged task per result cell and reduces the
   * replies into a buffer of a.row * b.col zeros. The result is the product
   * of a and b, also where the as-written gather panics.
   */
  method Multiply(a: Matrix, b: Matrix) returns (r: Result<Matrix, MatrixError>)
    requires a.WellFormed() && b.WellFormed()
    ensures a.col != b.row <==> r.Err?
    ensures r.Err? ==> r.error == DimensionMismatch
    ensures a.col == b.row ==> r == Ok(Product(a, b))
  {
    if a.col != b.row {
      return Err(DimensionMismatch);
    }
    var receives := Dispatch(a, b);
    var m := AssembleProduct(a, b, receives);
    return Ok(m);
  }

  /** The message `expect("Matrix multiply error")` panics with on an error e. */
  function ExpectMessage(e: MatrixError): string {
    "Matrix multiply error: " + ErrorText(e)
  }

  /**
   * The `*` operator over the corrected `Multiply`: the product, or a panic
   * carrying the `expect` message exactly when the dimensions mismatch.
   */
  method Mul(a: Matrix, b: Matrix) returns (r: Outcome<Matrix>)
    requires a.WellFormed() && b.WellFormed()
    ensures r.Panicked? <==> a.col != b.row
    ensures r.Panicked? ==>
              r.message == "Matrix multiply error: " + "Matrix dimensions do not match error: a.col != b.row"
    ensures r.Returned? ==> r.value == Product(a, b)
  {
    var c := Multiply(a, b);
    match c
    case Ok(m) => return Returned(m);
    case Err(e) =>
      return Panicked(ExpectMessage(e));
  }

  /**
   * The `*` operator exactly as written: it also panics, with the slice
   * message, where the as-written gather does.
   */
  method MulAsWritten(a: Matrix, b: Matrix) returns (r: Outcome<Matrix>)
    requires a.WellFormed() && b.WellFormed()
    ensures r.Panicked? <==> a.col != b.row || GatherPanics(a, b)
    ensures r.Panicked? && a.col != b.row ==>
              r.message == "Matrix multiply error: " + "Matrix dimensions do not match error: a.col != b.row"
    ensures r.Panicked? && a.col == b.row ==> r.message == SliceStartPanic(1, 0)
    ensures r.Returned? ==> r.value == Product(a, b)
  {
    var c := MultiplyAsWritten(a, b);
    match c
    case Panicked(message) => return Panicked(message);
    case Returned(Ok(m)) => return Returned(m);
    case Returned(Err(e)) =>
      return Panicked(ExpectMessage(e));
  }

  /** Concrete input: a 1x0 times a 0x2 matrix panics as written, and is the 1x2 zero matrix when corrected. */
  method MultiplyAsWrittenExample()
    returns (asWritten: Outcome<Result<Matrix, MatrixError>>, corrected: Result<Matrix, MatrixError>)
    ensures asWritten == Panicked(SliceStartPanic(1, 0))
    ensures corrected == Ok(Matrix([0, 0], 1, 2))
  {
    var a, b := Matrix([], 1, 0), Matrix([], 0, 2);
    assert GatherPanics(a, b);
    asWritten := MultiplyAsWritten(a, b);
    corrected := Multiply(a, b);
    assert Cell(a, b, 0, 0) == 0 && Cell(a, b, 0, 1) == 0;
    ProductDataAt(a, b, 0, 0);
    ProductDataAt(a, b, 0, 1);
    assert ProductData(a, b) == [0, 0];
  }
}
