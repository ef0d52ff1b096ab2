/**
 * The row-major dense matrix of src/matrix.rs: its layout, the row slice and
 * the strided column gather that feed the dot products, and the mathematical
 * product that `multiply` is proved against.
 */
module Matrices {
  import opened Wrappers
  import opened Vectors

  /** A matrix: flat `data`, with cell (i, j) stored at `i * col + j`. */
  datatype Matrix = Matrix(data: seq<int>, row: nat, col: nat) {

    /** The layout invariant; `Matrix::new` does not check it. */
    predicate WellFormed() {
      |data| == row * col
    }

    /** Cell (i, j) of a well-formed matrix. */
    function Get(i: nat, j: nat): int
      requires WellFormed() && i < row && j < col
    {
      IndexInRange(i, j, row, col);
      data[i * col + j]
    }
  }

  /** `Matrix::new`: stores data and dimensions as given, without a length check. */
  function NewMatrix(data: seq<int>, row: nat, col: nat): (m: Matrix)
    ensures m.data == data && m.row == row && m.col == col
    ensures m.WellFormed() <==> |data| == row * col
  {
    Matrix(data, row, col)
  }

  /** A matrix built by `NewMatrix` from data of the right length reads row-major. */
  lemma NewMatrixCell(data: seq<int>, row: nat, col: nat, i: nat, j: nat)
    requires |data| == row * col && i < row && j < col
    ensures i * col + j < |data|
    ensures NewMatrix(data, row, col).Get(i, j) == data[i * col + j]
  {
    IndexInRange(i, j, row, col);
  }

  // ---------------------------------------------------------------------------
  // Index arithmetic

  lemma {:induction false} MulMonotone(x: nat, y: nat, c: nat)
    requires x <= y
    ensures x * c <= y * c
    decreases y - x
  {
    if x < y {
      MulMonotone(x, y - 1, c);
      assert (y - 1) * c + c == y * c;
    }
  }

  /** A row-major index `i * c + j` of an r-by-c grid lies in `0 .. r * c`. */
  lemma IndexInRange(i: nat, j: nat, r: nat, c: nat)
    requires i < r && j < c
    ensures i * c + j < r * c
  {
    MulMonotone(i + 1, r, c);
    assert (i + 1) * c == i * c + c;
  }

  /** For a smaller factor, the product is short by at least one multiple of c. */
  lemma MulStrict(x: nat, y: nat, c: nat)
    requires x < y
    ensures x * c + c <= y * c
  {
    MulMonotone(x + 1, y, c);
    assert (x + 1) * c == x * c + c;
  }

  /** Row and column are recovered from a row-major index by division and remainder. */
  lemma IndexDivMod(i: nat, j: nat, c: nat)
    requires j < c
    ensures (i * c + j) / c == i && (i * c + j) % c == j
  {
    var n := i * c + j;
    var q, m := n / c, n % c;
    assert q * c + m == n;
    if q > i {
      MulStrict(i, q, c);
      assert false;
    } else if q < i {
      MulStrict(q, i, c);
      assert false;
    }
  }

  /** Every index below `r * c` is the row-major index of some cell. */
  lemma IndexSplit(n: nat, r: nat, c: nat)
    requires n < r * c
    ensures c > 0 && n / c < r && n % c < c
    ensures (n / c) * c + n % c == n
  {
    if c > 0 && n / c >= r {
      MulMonotone(r, n / c, c);
      assert false;
    }
  }

  // ---------------------------------------------------------------------------
  // Row slice and column gather

  /** Row i of a well-formed matrix as the contiguous slice `data[col*i .. col*(i+1)]`. */
  function RowSlice(a: Matrix, i: nat): (r: seq<int>)
    requires a.WellFormed() && i < a.row
    ensures |r| == a.col
    ensures forall k :: 0 <= k < a.col ==> r[k] == a.Get(i, k)
  {
    MulMonotone(i + 1, a.row, a.col);
    assert a.col * (i + 1) == a.col * i + a.col;
    a.data[a.col * i .. a.col * (i + 1)]
  }

  /** `iter().step_by(step)`: the first element, then every step-th after it. */
  function StepBy(s: seq<int>, step: nat): seq<int>
    requires step > 0
    decreases |s|
  {
    if |s| == 0 then []
    else [s[0]] + StepBy(if step <= |s| then s[step..] else [], step)
  }

  /** The k-th element taken by `StepBy` is `s[k * step]`, for every in-range multiple. */
  lemma {:induction false} StepByAt(s: seq<int>, step: nat, k: nat)
    requires step > 0 && k * step < |s|
    ensures k < |StepBy(s, step)| && StepBy(s, step)[k] == s[k * step]
    decreases k
  {
    if k > 0 {
      assert (k - 1) * step + step == k * step;
      var tail := s[step..];
      StepByAt(tail, step, k - 1);
      assert tail[(k - 1) * step] == s[k * step];
    }
  }

  /** A sequence whose length lies in `((n-1)*step, n*step]` yields exactly n elements. */
  lemma {:induction false} StepByLength(s: seq<int>, step: nat, n: nat)
    requires step > 0
    requires if n == 0 then |s| == 0 else (n - 1) * step < |s| <= n * step
    ensures |StepBy(s, step)| == n
    decreases n
  {
    if n > 1 {
      assert (n - 2) * step + step == (n - 1) * step;
      assert n * step == (n - 1) * step + step;
      StepByLength(s[step..], step, n - 1);
    }
  }

  /** Column j of a well-formed matrix, defined also when it has no rows. */
  function ColumnGather(b: Matrix, j: nat): (c: seq<int>)
    requires b.WellFormed() && j < b.col
    ensures |c| == b.row
    ensures forall k :: 0 <= k < b.row ==> c[k] == b.Get(k, j)
  {
    if b.row == 0 then []
    else
      var s := b.data[j..];
      assert (b.row - 1) * b.col + b.col == b.row * b.col;
      StepByLength(s, b.col, b.row);
      forall k | 0 <= k < b.row
        ensures StepBy(s, b.col)[k] == b.Get(k, j)
      {
        IndexInRange(k, j, b.row, b.col);
        StepByAt(s, b.col, k);
      }
      StepBy(s, b.col)
  }

  /** The first row of a well-formed matrix with rows lies inside its data. */
  lemma FirstRowInData(b: Matrix)
    ensures b.WellFormed() && b.row > 0 ==> b.col <= |b.data|
  {
    if b.row > 0 {
      MulMonotone(1, b.row, b.col);
    }
  }

  /**
   * Column j of b gathered as `b.data[j..].iter().step_by(b.col)`, exactly as
   * written: the slice `b.data[j..]` panics (None) when `j > |b.data|`. On a
   * well-formed b that happens exactly when b has no rows and j > 0; in every
   * other case the gather is the column.
   */
  function ColumnGatherAsWritten(b: Matrix, j: nat): (r: Option<seq<int>>)
    requires j < b.col
    ensures b.WellFormed() ==> (r.None? <==> b.row == 0 && j > 0)
    ensures b.WellFormed() && r.Some? ==> r.value == ColumnGather(b, j)
  {
    FirstRowInData(b);
    if j <= |b.data| then Some(StepBy(b.data[j..], b.col)) else None
  }

  /** Concrete input: a 0x2 matrix, column 1, which `multiply` gathers for a 1x0 left operand. */
  lemma ColumnGatherAsWrittenExample()
    ensures ColumnGatherAsWritten(Matrix([], 0, 2), 1) == None
    ensures ColumnGather(Matrix([], 0, 2), 1) == []
  {
  }

  // ---------------------------------------------------------------------------
  // The mathematical product

  /** Two matrices can be multiplied when a's column count equals b's row count. */
  predicate Compatible(a: Matrix, b: Matrix) {
    a.WellFormed() && b.WellFormed() && a.col == b.row
  }

  /** `sum_{k < n} a[i][k] * b[k][j]`: the triple-loop definition of a product cell. */
  function CellSum(a: Matrix, b: Matrix, i: nat, j: nat, n: nat): int
    requires Compatible(a, b) && i < a.row && j < b.col && n <= a.col
  {
    if n == 0 then 0 else CellSum(a, b, i, j, n - 1) + a.Get(i, n - 1) * b.Get(n - 1, j)
  }

  /** Cell (i, j) of the product a * b. */
  function Cell(a: Matrix, b: Matrix, i: nat, j: nat): int
    requires Compatible(a, b) && i < a.row && j < b.col
  {
    CellSum(a, b, i, j, a.col)
  }

  /** Data of the product: entry n holds cell (n / b.col, n % b.col). */
  function ProductData(a: Matrix, b: Matrix): seq<int>
    requires Compatible(a, b)
  {
    seq(a.row * b.col, n requires 0 <= n < a.row * b.col =>
          IndexSplit(n, a.row, b.col);
          Cell(a, b, n / b.col, n % b.col))
  }

  lemma ProductDataAt(a: Matrix, b: Matrix, i: nat, j: nat)
    requires Compatible(a, b) && i < a.row && j < b.col
    ensures i * b.col + j < |ProductData(a, b)|
    ensures ProductData(a, b)[i * b.col + j] == Cell(a, b, i, j)
  {
    IndexInRange(i, j, a.row, b.col);
    IndexDivMod(i, j, b.col);
  }

  /** The product a * b, row-major with a.row rows and b.col columns. */
  function Product(a: Matrix, b: Matrix): (p: Matrix)
    requires Compatible(a, b)
    ensures p.row == a.row && p.col == b.col && p.WellFormed()
    ensures forall i, j :: 0 <= i < a.row && 0 <= j < b.col ==> p.Get(i, j) == Cell(a, b, i, j)
  {
    var p := Matrix(ProductData(a, b), a.row, b.col);
    forall i, j | 0 <= i < a.row && 0 <= j < b.col
      ensures p.Get(i, j) == Cell(a, b, i, j)
    {
      ProductDataAt(a, b, i, j);
    }
    p
  }

  /**
   * The dot product of row i of a with the gathered column j of b is cell
   * (i, j) of the product: the decomposition `multiply` relies on.
   */
  lemma RowDotColumnIsCell(a: Matrix, b: Matrix, i: nat, j: nat)
    requires Compatible(a, b) && i < a.row && j < b.col
    ensures |RowSlice(a, i)| == |ColumnGather(b, j)|
    ensures Dot(RowSlice(a, i), ColumnGather(b, j)) == Cell(a, b, i, j)
  {
    var r, c := RowSlice(a, i), ColumnGather(b, j);
    DotPrefixIsCellSum(a, b, i, j, r, c, a.col);
    assert r[..a.col] == r && c[..a.col] == c;
  }

  lemma {:induction false} DotPrefixIsCellSum(a: Matrix, b: Matrix, i: nat, j: nat,
                                              r: seq<int>, c: seq<int>, n: nat)
    requires Compatible(a, b) && i < a.row && j < b.col && n <= a.col
    requires r == RowSlice(a, i) && c == ColumnGather(b, j)
    ensures Dot(r[..n], c[..n]) == CellSum(a, b, i, j, n)
    decreases n
  {
    if n > 0 {
      DotPrefixIsCellSum(a, b, i, j, r, c, n - 1);
      assert r[..n][..n - 1] == r[..n - 1] && c[..n][..n - 1] == c[..n - 1];
    }
  }

  /** The data of a 2x2 matrix, cell by cell. */
  lemma TwoByTwoData(p: Matrix)
    requires p.WellFormed() && p.row == 2 && p.col == 2
    ensures p.data == [p.Get(0, 0), p.Get(0, 1), p.Get(1, 0), p.Get(1, 1)]
  {
  }

  /** Scenario: [[1,2,3],[4,5,6]] * [[1,2],[3,4],[5,6]] == [[22,28],[49,64]]. */
  lemma ProductExample2x3()
    ensures Product(Matrix([1, 2, 3, 4, 5, 6], 2, 3), Matrix([1, 2, 3, 4, 5, 6], 3, 2)).data
            == [22, 28, 49, 64]
  {
    var a, b := Matrix([1, 2, 3, 4, 5, 6], 2, 3), Matrix([1, 2, 3, 4, 5, 6], 3, 2);
    TwoByTwoData(Product(a, b));
    assert Cell(a, b, 0, 0) == 22 && Cell(a, b, 0, 1) == 28;
    assert Cell(a, b, 1, 0) == 49 && Cell(a, b, 1, 1) == 64;
  }

  /** Scenario: [[1,2],[3,4]] squared == [[7,10],[15,22]]. */
  lemma ProductExample2x2()
    ensures Product(Matrix([1, 2, 3, 4], 2, 2), Matrix([1, 2, 3, 4], 2, 2)).data
            == [7, 10, 15, 22]
  {
    var a := Matrix([1, 2, 3, 4], 2, 2);
    TwoByTwoData(Product(a, a));
    assert Cell(a, a, 0, 0) == 7 && Cell(a, a, 0, 1) == 10;
    assert Cell(a, a, 1, 0) == 15 && Cell(a, a, 1, 1) == 22;
  }
}
