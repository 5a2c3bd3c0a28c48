/** Key codes, bytes, the matrix dimensions and the in-memory keyboard layout
    (`bl_layout_t`): a layer count and a fixed-size layer × row × column
    matrix of 16-bit key codes, stored layer-major, then row-major. */
module LayoutTypes {

  /** An unsigned 8-bit value (`uint8_t`). */
  newtype u8 = x: int | 0 <= x < 0x100

  /** An unsigned 16-bit key code (`uint16_t`). */
  newtype u16 = x: int | 0 <= x < 0x1_0000

  /** An optional value: a failure that may not have happened, a decoding
      that may not succeed. */
  datatype Option<T> = None | Some(value: T)

  /** The compile-time dimensions NUMROWS, NUMCOLS and NUMLAYERS_MAX. */
  datatype Dims = Dims(rows: nat, cols: nat, maxLayers: nat) {
    predicate Valid() { rows > 0 && cols > 0 }
  }

  /** Offset of `matrix[layer][row][col]` from the start of the matrix,
      counted in key codes. */
  function CellIndex(d: Dims, layer: nat, row: nat, col: nat): nat {
    layer * d.rows * d.cols + row * d.cols + col
  }

  /** The cell that flat offset `k` belongs to. */
  function CellOf(d: Dims, k: nat): (nat, nat, nat)
    requires d.Valid()
  {
    (k / (d.rows * d.cols), (k / d.cols) % d.rows, k % d.cols)
  }

  lemma MulMonotone(a: nat, b: nat, c: nat)
    requires a <= b
    ensures a * c <= b * c
  {
    assert b * c == a * c + (b - a) * c;
  }

  lemma DivModUnique(k: nat, n: nat, q: nat, r: nat)
    requires n > 0 && r < n && k == q * n + r
    ensures k / n == q && k % n == r
  {
    var q', r' := k / n, k % n;
    assert k == q' * n + r';
    if q' < q {
      MulMonotone(q' + 1, q, n);
      assert false;
    } else if q < q' {
      MulMonotone(q + 1, q', n);
      assert false;
    }
  }

  /** Within a layer, a cell's offset is below the layer size. */
  lemma OffsetInLayer(rows: nat, cols: nat, row: nat, col: nat)
    requires row < rows && col < cols
    ensures row * cols + col < rows * cols
  {
    MulMonotone(row, rows - 1, cols);
    assert (rows - 1) * cols == rows * cols - cols;
  }

  lemma LayerProduct(layer: nat, rows: nat, cols: nat)
    ensures layer * rows * cols == layer * (rows * cols)
    ensures (layer + 1) * rows * cols == layer * rows * cols + rows * cols
  {
  }

  /** The cells of one layer occupy the `rows * cols` consecutive offsets
      that start at `layer * rows * cols`; a layer below the capacity stays
      inside the storage. */
  lemma CellIndexBounds(d: Dims, layer: nat, row: nat, col: nat)
    requires d.Valid() && row < d.rows && col < d.cols
    ensures layer * d.rows * d.cols <= CellIndex(d, layer, row, col) < (layer + 1) * d.rows * d.cols
    ensures layer < d.maxLayers ==> CellIndex(d, layer, row, col) < d.maxLayers * d.rows * d.cols
  {
    OffsetInLayer(d.rows, d.cols, row, col);
    LayerProduct(layer, d.rows, d.cols);
    if layer < d.maxLayers {
      LayerProduct(d.maxLayers, d.rows, d.cols);
      MulMonotone(layer + 1, d.maxLayers, d.rows * d.cols);
      LayerProduct(layer + 1, d.rows, d.cols);
    }
  }

  /** Every cell has its own offset: `CellOf` recovers the cell from it. */
  lemma CellIndexInverse(d: Dims, layer: nat, row: nat, col: nat)
    requires d.Valid() && row < d.rows && col < d.cols
    ensures CellOf(d, CellIndex(d, layer, row, col)) == (layer, row, col)
  {
    var k := CellIndex(d, layer, row, col);
    OffsetInLayer(d.rows, d.cols, row, col);
    LayerProduct(layer, d.rows, d.cols);
    DivModUnique(k, d.rows * d.cols, layer, row * d.cols + col);
    assert k == (layer * d.rows + row) * d.cols + col;
    DivModUnique(k, d.cols, layer * d.rows + row, col);
    DivModUnique(layer * d.rows + row, d.rows, layer, row);
  }

  lemma Regroup(k: nat, q: nat, c: nat, l: nat, r: nat, rows: nat, cols: nat)
    requires k == q * cols + c && q == l * rows + r
    ensures k == l * (rows * cols) + (r * cols + c)
  {
    assert q * cols == l * rows * cols + r * cols;
    LayerProduct(l, rows, cols);
  }

  /** Every offset belongs to exactly one cell of the matrix. */
  lemma CellOfInverse(d: Dims, k: nat)
    requires d.Valid()
    ensures CellOf(d, k).1 < d.rows && CellOf(d, k).2 < d.cols
    ensures CellIndex(d, CellOf(d, k).0, CellOf(d, k).1, CellOf(d, k).2) == k
  {
    var rows, cols := d.rows, d.cols;
    var q, c := k / cols, k % cols;
    var l, r := q / rows, q % rows;
    Regroup(k, q, c, l, r, rows, cols);
    OffsetInLayer(rows, cols, r, c);
    DivModUnique(k, rows * cols, l, r * cols + c);
    LayerProduct(l, rows, cols);
    assert CellOf(d, k) == (l, r, c);
  }

  /** The layout object: `nlayers` and storage for `maxLayers` layers. */
  class Layout {
    const dims: Dims
    const matrix: array<u16>
    var nlayers: nat

    ghost predicate Valid()
      reads this
    {
      dims.Valid() && matrix.Length == dims.maxLayers * dims.rows * dims.cols
    }

    /** `bl_create_layout`: sets the layer count; the matrix is allocated
        for the full capacity and its contents are not specified. */
    constructor (dims: Dims, nlayers: nat)
      requires dims.Valid()
      ensures Valid() && fresh(matrix)
      ensures this.dims == dims && this.nlayers == nlayers
    {
      this.dims := dims;
      this.nlayers := nlayers;
      matrix := new u16[dims.maxLayers * dims.rows * dims.cols];
    }
  }
}
