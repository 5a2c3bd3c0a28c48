/** `bl_parse_layout_file`: the character loop that fills a freshly created
    layout in place, proved to compute `ParseSpec.Parse`. */
module Parser {
  import opened LayoutTypes
  import opened ParseSpec

  /** The matrix contents `m` hold the values of `cells` at their offsets. */
  ghost predicate Agrees(m: seq<u16>, cells: map<nat, u16>) {
    forall k | k in cells :: k < |m| && m[k] == cells[k]
  }

  ghost predicate Holds(layout: Layout, cells: map<nat, u16>)
    reads layout, layout.matrix
  {
    Agrees(layout.matrix[..], cells)
  }

  /** Writing a value at an offset keeps the agreement with the cells
      updated at that offset. */
  lemma AgreesUpdate(m: seq<u16>, cells: map<nat, u16>, k: nat, v: u16)
    requires Agrees(m, cells) && k < |m|
    ensures Agrees(m[k := v], cells[k := v])
  {
  }

  /** Parses the contents of a layout file. On success the layout holds
      `maxLayers` layers of storage, `nlayers` is the number of completed
      layers, and every cell the parse wrote holds its key code; the
      other cells are left as allocated. On failure there is no layout. */
  method ParseLayoutFile(d: Dims, input: string) returns (layout: Layout?, failure: Option<Failure>)
    requires d.Valid()
    requires AtoiDefined(input)
    ensures match Parse(d, input)
            case Parsed(n, cells) =>
              && failure == None && layout != null && fresh(layout) && fresh(layout.matrix)
              && layout.Valid() && layout.dims == d && layout.nlayers == n && Holds(layout, cells)
            case Failed(f) => layout == null && failure == Some(f)
  {
    var result := new Layout(d, d.maxLayers);
    var layer: nat, col: nat, row: nat := 0, 0, 0;
    var state := Whitespace;
    var buffer := new char[BUFFER_SIZE];
    var len: nat := 0;
    var pos: nat := 0;
    ghost var s := Start;
    while pos < |input|
      invariant s.mode == state && s.layer == layer && s.row == row && s.col == col && s.pos == pos
      invariant col < d.cols
      invariant buffer.Length == BUFFER_SIZE && fresh(buffer)
      invariant len <= buffer.Length && s.token == buffer[..len]
      invariant pos <= |input| && Run(d, input, s) == Parse(d, input)
      invariant result.Valid() && result.dims == d && fresh(result) && fresh(result.matrix)
      invariant Holds(result, s.cells)
      decreases |input| - pos, if state == Whitespace then 1 else 0
    {
      var ch := input[pos];
      if state == Digit {
        var halt: Option<Failure>;
        ghost var s': Scanner;
        state, layer, row, col, len, halt, s' := ScanDigit(d, input, result, buffer, layer, row, col, len, pos, s);
        if halt.Some? {
          return null, halt;
        }
        pos := pos + 1;
        s := s';
      } else {
        if ch == '\n' || ch == '\r' || ch == ' ' || ch == '\t' {
          pos := pos + 1;
          s := s.(pos := pos);
        } else if IsDigit(ch) {
          state := Digit;
          s := s.(mode := Digit);
        } else {
          return null, Some(Stuck(ch, pos + 1));
        }
      }
    }
    assert Run(d, input, s) == Finish(d, s);
    layout, failure := FinishParse(d, result, buffer, len, layer, row, col, s);
  }

  /** One character read in the DIGIT state: a digit is appended to the
      buffer; a comma stores the key and moves to the next column, or the
      next row after the last column; a line break stores the key and
      closes the layer, which must end on its last row and column; any
      other character is an error. */
  method ScanDigit(d: Dims, input: string, result: Layout, buffer: array<char>,
                   layer: nat, row: nat, col: nat, len: nat, pos: nat, ghost s: Scanner)
      returns (state': Mode, layer': nat, row': nat, col': nat, len': nat, halt: Option<Failure>,
               ghost s': Scanner)
    requires s.mode == Digit && s.layer == layer && s.row == row && s.col == col && s.pos == pos
    requires pos < |input| && col < d.cols && len <= buffer.Length && buffer.Length == BUFFER_SIZE
    requires s.token == buffer[..len]
    requires result.Valid() && result.dims == d && Holds(result, s.cells)
    modifies buffer, result.matrix
    ensures halt.Some? ==> Run(d, input, s) == Failed(halt.value)
    ensures halt.None? ==> Step(d, input, s) == Next(s') && Run(d, input, s) == Run(d, input, s')
    ensures halt.None? ==>
              && s'.mode == state' && s'.layer == layer' && s'.row == row' && s'.col == col' && s'.pos == pos + 1
              && col' < d.cols && len' <= buffer.Length && s'.token == buffer[..len'] && Holds(result, s'.cells)
  {
    var ch := input[pos];
    if IsDigit(ch) {
      if len >= BUFFER_SIZE - 1 {
        return Digit, layer, row, col, len, Some(BufferFull(layer + 1, col + 1, pos + 1)), s;
      }
      buffer[len] := ch;
      s' := s.(token := s.token + [ch], pos := pos + 1);
      return Digit, layer, row, col, len + 1, None, s';
    } else if ch == ',' || ch == '\n' || ch == '\r' {
      if !(layer < d.maxLayers && row < d.rows) {
        return Digit, layer, row, col, len, Some(OutOfBounds(layer, row, col)), s;
      }
      var k := CellIndex(d, layer, row, col);
      CellIndexBounds(d, layer, row, col);
      ghost var m := result.matrix[..];
      result.matrix[k] := KeyCode(buffer[..len]);
      assert result.matrix[..] == m[k := KeyCode(s.token)];
      AgreesUpdate(m, s.cells, k, KeyCode(s.token));
      ghost var cells := Store(d, s);
      layer', row', col' := layer, row, col;
      if ch == ',' {
        if col == d.cols - 1 {
          col' := 0;
          row' := row + 1;
        } else {
          col' := col + 1;
        }
      } else {
        if col < d.cols - 1 {
          return Whitespace, layer, row, col, 0, Some(TooFewKeys(layer + 1, col + 1, pos + 1)), s;
        }
        if row < d.rows - 1 {
          return Whitespace, layer, row, col, 0, Some(TooFewRows(row + 1, layer + 1, col + 1, pos + 1)), s;
        }
        layer' := layer + 1;
        col' := 0;
        row' := 0;
      }
      s' := Scanner(Whitespace, layer', row', col', [], pos + 1, cells);
      return Whitespace, layer', row', col', 0, None, s';
    } else {
      return Digit, layer, row, col, len, Some(UnexpectedChar(ch, layer + 1, col + 1, pos + 1)), s;
    }
  }

  /** The end of the input: the pending key is stored, the layer count is
      set, and a layout whose last layer stops inside a row or before its
      last row is rejected. */
  method FinishParse(d: Dims, result: Layout, buffer: array<char>, len: nat, layer: nat, row: nat, col: nat,
                     ghost s: Scanner)
      returns (layout: Layout?, failure: Option<Failure>)
    requires result.Valid() && result.dims == d
    requires s.layer == layer && s.row == row && s.col == col && col < d.cols
    requires len <= buffer.Length && s.token == buffer[..len]
    requires Holds(result, s.cells)
    modifies result, result.matrix
    ensures result.Valid() && result.dims == d
    ensures match Finish(d, s)
            case Parsed(n, cells) => failure == None && layout == result && result.nlayers == n && Holds(result, cells)
            case Failed(f) => layout == null && failure == Some(f)
  {
    if len > 0 {
      if !(layer < d.maxLayers && row < d.rows) {
        return null, Some(OutOfBounds(layer, row, col));
      }
      CellIndexBounds(d, layer, row, col);
      var k := CellIndex(d, layer, row, col);
      ghost var m := result.matrix[..];
      result.matrix[k] := KeyCode(buffer[..len]);
      assert result.matrix[..] == m[k := KeyCode(s.token)];
      AgreesUpdate(m, s.cells, k, KeyCode(s.token));
    }
    result.nlayers := layer;
    if (row > 0 && row < d.rows - 1) || (col > 0 && col < d.cols - 1) {
      return null, Some(NotEnoughEntries(layer + 1, 1 + col + row * col));
    }
    return result, None;
  }
}
