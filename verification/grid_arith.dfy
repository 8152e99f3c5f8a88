/**
 Integer facts about row-major addressing that the grid proofs rely on.
 Every slot computation of the mesh generator has the shape `i * stride + j`
 with `0 <= j < stride`; these lemmas say that such a slot stays inside the
 `rows * stride` block and that division and remainder recover `(i, j)`.
 */
module GridArith {

  /** Multiplying by a non-negative factor preserves `<=`. */
  lemma MulLeq(a: int, b: int, c: int)
    requires 0 <= a <= b && 0 <= c
    ensures a * c <= b * c
  {
    assert b * c - a * c == (b - a) * c;
  }

  /** `q * d + r` with `0 <= r < d` divides back into quotient `q` and remainder `r`. */
  lemma DivModRowMajor(q: int, r: int, d: int)
    requires 0 <= q && 0 <= r < d
    ensures (q * d + r) / d == q
    ensures (q * d + r) % d == r
  {
    var x := q * d + r;
    var q', r' := x / d, x % d;
    assert x == q' * d + r';
    assert 0 <= r' < d;
    if q' > q {
      MulLeq(q + 1, q', d);
      assert false;
    } else if q' < q {
      MulLeq(q' + 1, q, d);
      assert false;
    }
  }

  /** A row-major slot of an in-range coordinate lies inside the block. */
  lemma RowMajorBound(i: int, j: int, rows: int, stride: int)
    requires 0 <= i < rows && 0 <= j < stride
    ensures 0 <= i * stride + j < rows * stride
  {
    MulLeq(0, i, stride);
    MulLeq(i + 1, rows, stride);
    assert (i + 1) * stride == i * stride + stride;
  }

  /** Every slot of a `rows * stride` block is the row-major slot of an in-range coordinate. */
  lemma RowMajorCover(k: int, rows: int, stride: int)
    requires 0 < stride && 0 <= k < rows * stride
    ensures 0 <= k / stride < rows
    ensures 0 <= k % stride < stride
    ensures (k / stride) * stride + k % stride == k
  {
    var q, r := k / stride, k % stride;
    assert k == q * stride + r;
    if q < 0 {
      MulLeq(0, -q, stride);
      assert false;
    }
    if q >= rows {
      MulLeq(rows, q, stride);
      assert false;
    }
  }
}
