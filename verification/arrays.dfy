/** Two-dimensional arrays as the library uses them (`ndarray::Array2`):
    a row count, a column count and the entries row by row. */
module Arrays {
  import opened Seqs

  /** A dense two-dimensional array: rows of `cols` entries each. */
  datatype Grid<T> = Grid(cols: nat, rows: seq<seq<T>>)

  predicate Rectangular<T>(g: Grid<T>)
  {
    forall i :: 0 <= i < |g.rows| ==> |g.rows[i]| == g.cols
  }

  type Matrix<T> = g: Grid<T> | Rectangular(g) witness Grid(0, [])

  /** `.t()`: entry `(c, i)` of the result is entry `(i, c)` of the input. */
  function Transpose<T>(g: Matrix<T>): (r: Matrix<T>)
    ensures r.cols == |g.rows| && |r.rows| == g.cols
    ensures forall c, i :: 0 <= c < g.cols && 0 <= i < |g.rows| ==> r.rows[c][i] == g.rows[i][c]
  {
    Grid(|g.rows|, seq(g.cols, c requires 0 <= c < g.cols =>
                         seq(|g.rows|, i requires 0 <= i < |g.rows| && c < |g.rows[i]| => g.rows[i][c])))
  }

  /** Transposing twice gives the matrix back. */
  lemma TransposeTwice<T>(g: Matrix<T>)
    ensures Transpose(Transpose(g)) == g
  {
    var t := Transpose(Transpose(g));
    assert |t.rows| == |g.rows|;
    forall i | 0 <= i < |g.rows| ensures t.rows[i] == g.rows[i] {
      assert |t.rows[i]| == |g.rows[i]|;
    }
  }

  /** `rows * cols` is one run of `cols` more than `(rows - 1) * cols`. */
  lemma MulStep(rows: nat, cols: nat)
    requires rows > 0
    ensures rows * cols == cols + (rows - 1) * cols
  {
  }

  /** `Array2::from_shape_vec` in the default (row-major) order: the flat
      data cut into `rows` consecutive runs of `cols` entries. */
  function Reshape<T>(flat: seq<T>, rows: nat, cols: nat): (r: Matrix<T>)
    requires |flat| == rows * cols
    ensures r.cols == cols && |r.rows| == rows
    decreases rows
  {
    if rows == 0 then Grid(cols, [])
    else
      MulStep(rows, cols);
      var rest := Reshape(flat[cols..], rows - 1, cols);
      Grid(cols, [flat[..cols]] + rest.rows)
  }

  /** Entry `(i, j)` is flat entry `i * cols + j`. */
  lemma {:induction false} ReshapeEntry<T>(flat: seq<T>, rows: nat, cols: nat, i: nat, j: nat)
    requires |flat| == rows * cols
    requires i < rows && j < cols
    ensures i * cols + j < |flat| && Reshape(flat, rows, cols).rows[i][j] == flat[i * cols + j]
    decreases rows
  {
    MulStep(rows, cols);
    if i > 0 {
      ReshapeEntry(flat[cols..], rows - 1, cols, i - 1, j);
      MulStep(i, cols);
    }
  }

  /** Reading a reshaped array row by row gives the flat data back. */
  lemma {:induction false} FlattenReshape<T>(flat: seq<T>, rows: nat, cols: nat)
    requires |flat| == rows * cols
    ensures Flatten(Reshape(flat, rows, cols).rows) == flat
    decreases rows
  {
    if rows > 0 {
      MulStep(rows, cols);
      FlattenReshape(flat[cols..], rows - 1, cols);
      assert Reshape(flat, rows, cols).rows[1..] == Reshape(flat[cols..], rows - 1, cols).rows;
      assert flat == flat[..cols] + flat[cols..];
    }
  }

  /** Reshaping the rows of a matrix, read in order, gives the matrix back. */
  lemma {:induction false} ReshapeFlatten<T>(g: Matrix<T>)
    ensures |Flatten(g.rows)| == |g.rows| * g.cols
    ensures Reshape(Flatten(g.rows), |g.rows|, g.cols) == g
    decreases |g.rows|
  {
    if g.rows != [] {
      var tail: Matrix<T> := Grid(g.cols, g.rows[1..]);
      ReshapeFlatten(tail);
      assert Flatten(g.rows) == g.rows[0] + Flatten(tail.rows);
      assert Flatten(g.rows)[g.cols..] == Flatten(tail.rows);
      assert Flatten(g.rows)[..g.cols] == g.rows[0];
      assert g.rows == [g.rows[0]] + tail.rows;
    }
  }
}
