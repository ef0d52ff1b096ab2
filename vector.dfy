/**
 * The numeric vector and its dot product (src/vector.rs).
 * The element type is modelled as unbounded `int`; its `Default` value is 0.
 */
module Vectors {
  import opened Wrappers

  /** Errors raised by `dot_product`. */
  datatype VectorError = LengthMismatch

  /** A vector owns a sequence of elements; `Deref` exposes it unchanged. */
  datatype Vector = Vector(data: seq<int>) {

    /** Length as read through `Deref`. */
    function Len(): nat {
      |data|
    }

    /** Indexing as read through `Deref`. */
    function At(i: nat): int
      requires i < Len()
    {
      data[i]
    }
  }

  /** `Vector::new`: wraps the given elements. */
  function NewVector(data: seq<int>): (v: Vector)
    ensures v.Len() == |data|
    ensures forall i :: 0 <= i < |data| ==> v.At(i) == data[i]
  {
    Vector(data)
  }

  /**
   * Reference definition of the dot product of equal-length sequences,
   * built up one trailing element at a time.
   */
  function Dot(a: seq<int>, b: seq<int>): int
    requires |a| == |b|
    decreases |a|
  {
    if |a| == 0 then 0
    else Dot(a[..|a| - 1], b[..|b| - 1]) + a[|a| - 1] * b[|b| - 1]
  }

  /**
   * `dot_product`: fails when the lengths differ, otherwise accumulates
   * `sum += a[i] * b[i]` from the additive identity.
   */
  method DotProduct(a: Vector, b: Vector) returns (r: Result<int, VectorError>)
    ensures a.Len() != b.Len() <==> r.Err?
    ensures r.Err? ==> r.error == LengthMismatch
    ensures a.Len() == b.Len() ==> r == Ok(Dot(a.data, b.data))
  {
    if a.Len() != b.Len() {
      return Err(LengthMismatch);
    }
    var sum := 0;
    for i := 0 to a.Len()
      invariant sum == Dot(a.data[..i], b.data[..i])
    {
      assert a.data[..i + 1][..i] == a.data[..i];
      assert b.data[..i + 1][..i] == b.data[..i];
      sum := sum + a.At(i) * b.At(i);
    }
    assert a.data[..a.Len()] == a.data;
    assert b.data[..b.Len()] == b.data;
    return Ok(sum);
  }

  /** Two empty vectors have dot product 0, the additive identity. */
  lemma DotOfEmpty()
    ensures Dot([], []) == 0
  {
  }

  /** Peeling the first element: the dot product read from the front. */
  lemma {:induction false} DotFront(a: seq<int>, b: seq<int>)
    requires |a| == |b| && |a| > 0
    ensures Dot(a, b) == a[0] * b[0] + Dot(a[1..], b[1..])
    decreases |a|
  {
    if |a| > 1 {
      var n := |a|;
      DotFront(a[..n - 1], b[..n - 1]);
      assert a[..n - 1][1..] == a[1..][..n - 2];
      assert b[..n - 1][1..] == b[1..][..n - 2];
    }
  }

  /** The dot product does not depend on the order of its operands. */
  lemma {:induction false} DotSymmetric(a: seq<int>, b: seq<int>)
    requires |a| == |b|
    ensures Dot(a, b) == Dot(b, a)
    decreases |a|
  {
    if |a| > 0 {
      DotSymmetric(a[..|a| - 1], b[..|b| - 1]);
    }
  }

  /** Dot product of a concatenation is the sum of the parts' dot products. */
  lemma {:induction false} DotAppend(a: seq<int>, c: seq<int>, b: seq<int>, d: seq<int>)
    requires |a| == |b| && |c| == |d|
    ensures Dot(a + c, b + d) == Dot(a, b) + Dot(c, d)
    decreases |c|
  {
    if |c| > 0 {
      var n := |c|;
      assert (a + c)[..|a + c| - 1] == a + c[..n - 1];
      assert (b + d)[..|b + d| - 1] == b + d[..n - 1];
      DotAppend(a, c[..n - 1], b, d[..n - 1]);
    } else {
      assert a + c == a && b + d == b;
    }
  }

  /** Scenario: [1,2,3] . [4,5,6] == 32. */
  lemma DotExample()
    ensures Dot([1, 2, 3], [4, 5, 6]) == 32
  {
    assert [1, 2, 3][..2] == [1, 2] && [4, 5, 6][..2] == [4, 5];
    assert [1, 2][..1] == [1] && [4, 5][..1] == [4];
    assert [1][..0] == [] && [4][..0] == [];
  }
}
