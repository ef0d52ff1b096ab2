/**
 * The `Display` and `Debug` text of a matrix (src/matrix.rs):
 * `{r0c0 r0c1, r1c0 r1c1}` and `Matrix(row=R, col=C, {...})`.
 */
module MatrixFormat {
  import opened Decimal
  import opened Matrices

  /** The parts separated by `sep`; nothing for no parts. */
  function Join(sep: string, parts: seq<string>): string
    decreases |parts|
  {
    if |parts| == 0 then ""
    else if |parts| == 1 then parts[0]
    else Join(sep, parts[..|parts| - 1]) + sep + parts[|parts| - 1]
  }

  /** Joining one more part appends the separator and the part. */
  lemma JoinSnoc(sep: string, parts: seq<string>, x: string)
    ensures Join(sep, parts + [x]) == if |parts| == 0 then x else Join(sep, parts) + sep + x
  {
    assert (parts + [x])[..|parts|] == parts;
  }

  /**
   * What a loop that writes each of `parts` followed by `sep` unless it is
   * the last has written after its first k steps.
   */
  function Written(sep: string, parts: seq<string>, k: nat): string
    requires k <= |parts|
  {
    Join(sep, parts[..k]) + (if 0 < k < |parts| then sep else "")
  }

  /** One more step writes the next part, then the separator unless it was the last. */
  lemma WrittenStep(sep: string, parts: seq<string>, k: nat)
    requires k < |parts|
    ensures Written(sep, parts, k + 1)
            == Written(sep, parts, k) + parts[k] + (if k != |parts| - 1 then sep else "")
  {
    assert parts[..k + 1] == parts[..k] + [parts[k]];
    JoinSnoc(sep, parts[..k], parts[k]);
  }

  /**
   * One step of such a loop after a fixed prefix: appending the next part,
   * and the separator unless it is the last, extends what was written.
   */
  lemma WriteStep(prefix: string, sep: string, parts: seq<string>, k: nat, acc: string, part: string)
    requires k < |parts| && part == parts[k]
    requires acc == prefix + Written(sep, parts, k)
    ensures k != |parts| - 1 ==> acc + part + sep == prefix + Written(sep, parts, k + 1)
    ensures k == |parts| - 1 ==> acc + part == prefix + Written(sep, parts, k + 1)
  {
    WrittenStep(sep, parts, k);
    var tail := part + (if k != |parts| - 1 then sep else "");
    assert prefix + Written(sep, parts, k + 1) == prefix + (Written(sep, parts, k) + tail);
    if k != |parts| - 1 {
      assert acc + part + sep == acc + tail;
    } else {
      assert acc + part == acc + tail;
    }
  }

  /** After every step, the loop has written the joined parts. */
  lemma WrittenAll(sep: string, parts: seq<string>)
    ensures Written(sep, parts, |parts|) == Join(sep, parts)
  {
    assert parts[..|parts|] == parts;
  }

  /** Two parts joined: the first, the separator, the second. */
  lemma JoinTwo(sep: string, x: string, y: string)
    ensures Join(sep, [x, y]) == x + sep + y
  {
    assert [x, y][..1] == [x];
  }

  /** The texts of the cells of row i. */
  function CellTexts(m: Matrix, i: nat): (r: seq<string>)
    requires m.WellFormed() && i < m.row
    ensures |r| == m.col
  {
    seq(m.col, j requires 0 <= j < m.col => IntText(m.Get(i, j)))
  }

  /** The texts of the rows, cells separated by single spaces. */
  function RowTexts(m: Matrix): (r: seq<string>)
    requires m.WellFormed()
    ensures |r| == m.row
  {
    seq(m.row, i requires 0 <= i < m.row => Join(" ", CellTexts(m, i)))
  }

  /** The display text: rows separated by ", ", all in braces. */
  function Render(m: Matrix): string
    requires m.WellFormed()
  {
    "{" + Join(", ", RowTexts(m)) + "}"
  }

  /** The inner loop of `Display::fmt`: row i's cells, " " after all but the last. */
  method WriteRow(m: Matrix, i: nat, out: string) returns (out': string)
    requires m.WellFormed() && i < m.row
    ensures out' == out + Join(" ", CellTexts(m, i))
  {
    var cells := CellTexts(m, i);
    out' := out;
    for j := 0 to m.col
      invariant out' == out + Written(" ", cells, j)
    {
      var text := IntText(m.Get(i, j));
      WriteStep(out, " ", cells, j, out', text);
      out' := out' + text;
      if j != m.col - 1 {
        out' := out' + " ";
      }
    }
    WrittenAll(" ", cells);
  }

  /**
   * `Display::fmt`: writes "{", then each row (see `WriteRow`) followed by
   * ", " unless it is the last row, then "}". The text written is `Render(m)`.
   */
  method Display(m: Matrix) returns (out: string)
    requires m.WellFormed()
    ensures out == Render(m)
  {
    var rows := RowTexts(m);
    out := "{";
    for i := 0 to m.row
      invariant out == "{" + Written(", ", rows, i)
    {
      WriteStep("{", ", ", rows, i, out, rows[i]);
      out := WriteRow(m, i, out);
      if i != m.row - 1 {
        out := out + ", ";
      }
    }
    WrittenAll(", ", rows);
    out := out + "}";
  }

  /**
   * `Debug::fmt`: "Matrix(row=", the dimensions, then the display text,
   * closed by ")".
   */
  function DebugText(m: Matrix): (s: string)
    requires m.WellFormed()
    ensures |s| > 12 + |Render(m)|
    ensures s[..11] == "Matrix(row=" && s[|s| - 1] == ')'
    ensures s[|s| - 1 - |Render(m)| .. |s| - 1] == Render(m)
  {
    var head := "Matrix(row=" + NatText(m.row) + ", col=" + NatText(m.col) + ", ";
    assert head[..11] == "Matrix(row=";
    head + (Render(m) + ")")
  }

  /**
   * After "Matrix(row=" come the row count, ", col=", the column count and
   * ", "; with `DebugText`'s own contract this fixes the whole debug text.
   */
  lemma DebugShowsDimensions(m: Matrix)
    requires m.WellFormed()
    ensures var r := NatText(m.row); var c := NatText(m.col);
      && |DebugText(m)| == 20 + |r| + |c| + |Render(m)|
      && DebugText(m)[11 .. 11 + |r|] == r
      && DebugText(m)[11 + |r| .. 17 + |r|] == ", col="
      && DebugText(m)[17 + |r| .. 17 + |r| + |c|] == c
      && DebugText(m)[17 + |r| + |c| .. 19 + |r| + |c|] == ", "
  {
    var r, c := NatText(m.row), NatText(m.col);
    var head := "Matrix(row=" + r + ", col=" + c;
    assert DebugText(m) == head + (", " + (Render(m) + ")"));
    assert head[11 .. 11 + |r|] == r;
    assert head[11 + |r| .. 17 + |r|] == ", col=";
  }

  /** A matrix with no rows displays as "{}". */
  lemma RenderNoRows(m: Matrix)
    requires m.WellFormed() && m.row == 0
    ensures Render(m) == "{}"
  {
  }

  /** A single row displays its cells separated by single spaces. */
  lemma RenderOneRow(m: Matrix)
    requires m.WellFormed() && m.row == 1
    ensures Render(m) == "{" + Join(" ", CellTexts(m, 0)) + "}"
  {
  }

  /** A 2x2 matrix displays as "{a b, c d}". */
  lemma RenderTwoByTwo(m: Matrix)
    requires m.WellFormed() && m.row == 2 && m.col == 2
    ensures Render(m) == "{" + IntText(m.data[0]) + " " + IntText(m.data[1]) + ", "
                             + IntText(m.data[2]) + " " + IntText(m.data[3]) + "}"
  {
    var t := [IntText(m.data[0]), IntText(m.data[1]), IntText(m.data[2]), IntText(m.data[3])];
    assert CellTexts(m, 0) == [t[0], t[1]];
    assert CellTexts(m, 1) == [t[2], t[3]];
    JoinTwo(" ", t[0], t[1]);
    JoinTwo(" ", t[2], t[3]);
    assert RowTexts(m) == [t[0] + " " + t[1], t[2] + " " + t[3]];
    JoinTwo(", ", t[0] + " " + t[1], t[2] + " " + t[3]);
  }

  /** Scenario: the product [7, 10, 15, 22] (2x2) displays as "{7 10, 15 22}". */
  lemma DisplayExample()
    ensures Render(Matrix([7, 10, 15, 22], 2, 2)) == "{7 10, 15 22}"
  {
    RenderTwoByTwo(Matrix([7, 10, 15, 22], 2, 2));
    assert IntText(7) == "7" && IntText(10) == "10" && IntText(15) == "15" && IntText(22) == "22";
    assert "{" + "7" + " " + "10" == "{7 10";
    assert "{7 10" + ", " + "15" == "{7 10, 15";
    assert "{7 10, 15" + " " + "22" + "}" == "{7 10, 15 22}";
  }

  /** The product [22, 28, 49, 64] (2x2) displays as "{22 28, 49 64}". */
  lemma DisplayExampleProduct()
    ensures Render(Matrix([22, 28, 49, 64], 2, 2)) == "{22 28, 49 64}"
  {
    RenderTwoByTwo(Matrix([22, 28, 49, 64], 2, 2));
    assert IntText(22) == "22" && IntText(28) == "28" && IntText(49) == "49" && IntText(64) == "64";
    assert "{" + "22" + " " + "28" == "{22 28";
    assert "{22 28" + ", " + "49" == "{22 28, 49";
    assert "{22 28, 49" + " " + "64" + "}" == "{22 28, 49 64}";
  }

  /** Scenario: the same product debug-prints as "Matrix(row=2, col=2, {22 28, 49 64})". */
  lemma DebugExample()
    ensures DebugText(Matrix([22, 28, 49, 64], 2, 2)) == "Matrix(row=2, col=2, {22 28, 49 64})"
  {
    DisplayExampleProduct();
    assert NatText(2) == "2";
    assert "Matrix(row=" + "2" + ", col=" + "2" == "Matrix(row=2, col=2";
    assert "Matrix(row=2, col=2" + ", " + "{22 28, 49 64}" + ")"
        == "Matrix(row=2, col=2, {22 28, 49 64})";
  }
}
