/** Arithmetic facts about row-major layouts: a pair (row, col) with
    0 <= col < cols is stored at row * cols + col, and division and remainder
    by cols recover it. Both the process grid (rank <-> coordinates) and the
    cell buffer of a grid (cell <-> offset) use this layout. */
module RowMajor {

  /** Multiplying by a non-negative factor preserves order. */
  lemma MulMonotone(a: int, b: int, c: int)
    requires a <= b && 0 <= c
    ensures a * c <= b * c
  {
    assert b * c - a * c == (b - a) * c;
  }

  /** Euclidean division is unique: a == q * n + r with 0 <= r < n fixes q and r. */
  lemma DivModUnique(a: int, n: int, q: int, r: int)
    requires 0 < n && 0 <= r < n && a == q * n + r
    ensures a / n == q && a % n == r
  {
    var q', r' := a / n, a % n;
    assert a == q' * n + r';
    if q' < q {
      MulMonotone(q' + 1, q, n);
      assert false;
    } else if q < q' {
      MulMonotone(q + 1, q', n);
      assert false;
    }
  }

  /** The offset of (row, col) lies inside a rows-by-cols block. */
  lemma OffsetInRange(row: int, col: int, rows: int, cols: int)
    requires 0 <= row < rows && 0 <= col < cols
    ensures 0 <= row * cols + col < rows * cols
  {
    MulMonotone(0, row, cols);
    MulMonotone(row, rows - 1, cols);
    assert (rows - 1) * cols == rows * cols - cols;
  }

  /** Division and remainder by cols decode an offset back into (row, col). */
  lemma OffsetDecodes(row: int, col: int, cols: int)
    requires 0 <= col < cols
    ensures (row * cols + col) / cols == row && (row * cols + col) % cols == col
  {
    DivModUnique(row * cols + col, cols, row, col);
  }

  /** Every offset inside a rows-by-cols block decodes into a row below rows. */
  lemma RowInRange(k: int, rows: int, cols: int)
    requires 0 < cols && 0 <= k < rows * cols
    ensures 0 <= k / cols < rows && 0 <= k % cols < cols
  {
    var q := k / cols;
    assert k == q * cols + k % cols;
    if q < 0 {
      MulMonotone(q, -1, cols);
      assert false;
    }
    if rows <= q {
      MulMonotone(rows, q, cols);
      assert false;
    }
  }

  /** Multiplication distributes over addition. */
  lemma Distribute(a: int, b: int, c: int)
    ensures (a + b) * c == a * c + b * c
  {
  }

  /** Within count strides, every step stays at or below the last. */
  lemma StrideBelowLast(i: int, count: int, stride: int)
    requires 0 <= i < count && 0 <= stride
    ensures i * stride <= (count - 1) * stride
  {
    MulMonotone(i, count - 1, stride);
  }
}
