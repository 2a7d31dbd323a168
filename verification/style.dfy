/** The style-vector table of a voice (sbv2_core/src/style.rs): loading the
    decoded JSON into a matrix, and blending one row with the mean row.
    `f32` arithmetic is modelled over the reals. */
module Style {
  import opened Wrappers
  import opened Seqs
  import opened Arrays

  /** The decoded `style_vectors.json`: a declared shape and nested rows. */
  datatype StyleData = StyleData(shape: (nat, nat), data: seq<seq<real>>)

  /** `load_style` after JSON decoding: the rows flattened in order and cut
      to the declared shape; only the total count is checked, so ragged rows
      are accepted when the count matches. */
  function LoadStyle(d: StyleData): (r: Result<Matrix<real>>)
    ensures r.Ok? <==> |Flatten(d.data)| == d.shape.0 * d.shape.1
    ensures r.Err? ==> r.error == NdArrayError
    ensures r.Ok? ==> |r.value.rows| == d.shape.0 && r.value.cols == d.shape.1 && Flatten(r.value.rows) == Flatten(d.data)
  {
    var flat := Flatten(d.data);
    if |flat| != d.shape.0 * d.shape.1 then Err(NdArrayError)
    else
      FlattenReshape(flat, d.shape.0, d.shape.1);
      Ok(Reshape(flat, d.shape.0, d.shape.1))
  }

  /** Entry `(i, j)` of the loaded matrix is flat entry `i * cols + j`. */
  lemma LoadStyleRowMajor(d: StyleData, i: nat, j: nat)
    requires LoadStyle(d).Ok?
    requires i < d.shape.0 && j < d.shape.1
    ensures i * d.shape.1 + j < |Flatten(d.data)|
    ensures LoadStyle(d).value.rows[i][j] == Flatten(d.data)[i * d.shape.1 + j]
  {
    ReshapeEntry(Flatten(d.data), d.shape.0, d.shape.1, i, j);
  }

  /** Rows that already have the declared shape load as themselves. */
  lemma LoadStyleRectangular(d: StyleData)
    requires |d.data| == d.shape.0
    requires forall i :: 0 <= i < |d.data| ==> |d.data[i]| == d.shape.1
    ensures LoadStyle(d) == Ok(Grid(d.shape.1, d.data))
  {
    var g: Matrix<real> := Grid(d.shape.1, d.data);
    ReshapeFlatten(g);
  }

  /** Ragged rows pass the shape check: one declared row of two entries,
      given as two rows of one. */
  lemma LoadStyleRagged()
    ensures LoadStyle(StyleData((1, 2), [[0.5], [1.5]])) == Ok(Grid(2, [[0.5, 1.5]]))
  {
    var d := StyleData((1, 2), [[0.5], [1.5]]);
    assert Flatten(d.data) == [0.5, 1.5];
    assert [0.5, 1.5][..2] == [0.5, 1.5];
    assert Reshape([0.5, 1.5], 1, 2).rows == [[0.5, 1.5]];
  }

  /** `get_style_vector`: row 0 is the mean, and the result moves from it
      towards row `style_id` by `weight`. Row 0 panics on an empty table, and
      `style_id as usize` panics when the id is negative or past the last row. */
  function StyleVector(m: Matrix<real>, styleId: int, weight: real): (r: Result<seq<real>>)
    ensures r.Ok? <==> 0 <= styleId < |m.rows|
    ensures r.Err? ==> r.error.Panic?
    ensures r.Ok? ==> |r.value| == m.cols
    ensures r.Ok? ==> forall j :: 0 <= j < m.cols ==>
      r.value[j] == (1.0 - weight) * m.rows[0][j] + weight * m.rows[styleId][j]
  {
    if |m.rows| == 0 then Err(Panic("row 0 of an empty style table"))
    else if !(0 <= styleId < |m.rows|) then Err(Panic("style id out of bounds"))
    else
      var mean := m.rows[0];
      var style := m.rows[styleId];
      var diff := seq(m.cols, j requires 0 <= j < m.cols => (style[j] - mean[j]) * weight);
      Ok(seq(m.cols, j requires 0 <= j < m.cols => mean[j] + diff[j]))
  }

  /** Weight 0, or style 0, gives the mean row; weight 1 gives the style's own row. */
  lemma StyleVectorEnds(m: Matrix<real>, styleId: int, weight: real)
    requires 0 <= styleId < |m.rows|
    ensures weight == 0.0 || styleId == 0 ==> StyleVector(m, styleId, weight) == Ok(m.rows[0])
    ensures weight == 1.0 ==> StyleVector(m, styleId, weight) == Ok(m.rows[styleId])
  {
    var r := StyleVector(m, styleId, weight).value;
    assert |m.rows[0]| == |m.rows[styleId]| == |r| == m.cols;
    if weight == 0.0 || styleId == 0 {
      assert forall j :: 0 <= j < m.cols ==> r[j] == m.rows[0][j];
      assert r == m.rows[0];
    }
    if weight == 1.0 {
      assert forall j :: 0 <= j < m.cols ==> r[j] == m.rows[styleId][j];
      assert r == m.rows[styleId];
    }
  }
}
