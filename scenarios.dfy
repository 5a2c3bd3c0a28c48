/** Worked inputs that show how the scanner reads a layout file: a line
    break directly after a key ends a layer, so a row cannot end a line
    with a key unless it is the layer's last; a line break after a comma
    is skipped, so a row may go on after it; and a last layer without a
    closing line break is stored but not counted. */
module Scenarios {
  import opened LayoutTypes
  import opened ParseSpec
  /** A one-digit key read in the WHITESPACE state ends up in the buffer. */
  lemma ReadOneDigit(d: Dims, input: string, s: Scanner)
    requires s.mode == Whitespace && s.token == [] && s.pos < |input| && IsDigit(input[s.pos])
    ensures Run(d, input, s) == Run(d, input, s.(mode := Digit, token := [input[s.pos]], pos := s.pos + 1))
  {
    var s1 := s.(mode := Digit);
    assert Step(d, input, s) == Next(s1);
    assert s1.token + [input[s.pos]] == [input[s.pos]];
    var s2 := s1.(token := [input[s.pos]], pos := s.pos + 1);
    assert Step(d, input, s1) == Next(s2);
    assert Run(d, input, s) == Run(d, input, s1);
  }

  /** A one-digit key followed by a comma, read in the WHITESPACE state. */
  lemma KeyThenComma(d: Dims, input: string, s: Scanner)
    requires s.mode == Whitespace && s.token == [] && s.pos + 1 < |input|
    requires IsDigit(input[s.pos]) && input[s.pos + 1] == ','
    requires InBounds(d, s) && s.col < d.cols - 1
    ensures Run(d, input, s) ==
            Run(d, input, s.(col := s.col + 1, pos := s.pos + 2, cells := Store(d, s.(token := [input[s.pos]]))))
  {
    ReadOneDigit(d, input, s);
  }

  /** A one-digit key that ends its row with a line break, read in the
      WHITESPACE state, before the last row of the layer. */
  lemma KeyThenEarlyLineBreak(d: Dims, input: string, s: Scanner)
    requires s.mode == Whitespace && s.token == [] && s.pos + 1 < |input|
    requires IsDigit(input[s.pos]) && IsLineBreak(input[s.pos + 1])
    requires InBounds(d, s) && s.col == d.cols - 1 && s.row < d.rows - 1
    ensures Run(d, input, s) == Failed(TooFewRows(s.row + 1, s.layer + 1, s.col + 1, s.pos + 2))
  {
    ReadOneDigit(d, input, s);
  }

  /** A one-digit key followed by a comma at the end of a row, read in
      the WHITESPACE state: the cursor moves to the next row. */
  lemma KeyThenRowEndComma(d: Dims, input: string, s: Scanner)
    requires s.mode == Whitespace && s.token == [] && s.pos + 1 < |input|
    requires IsDigit(input[s.pos]) && input[s.pos + 1] == ','
    requires InBounds(d, s) && s.col == d.cols - 1
    ensures Run(d, input, s) ==
            Run(d, input, s.(row := s.row + 1, col := 0, pos := s.pos + 2, cells := Store(d, s.(token := [input[s.pos]]))))
  {
    ReadOneDigit(d, input, s);
  }

  /** A one-digit key that ends the last row of a layer, followed by a
      line break, read in the WHITESPACE state: the layer is closed. */
  lemma KeyThenLayerEnd(d: Dims, input: string, s: Scanner)
    requires s.mode == Whitespace && s.token == [] && s.pos + 1 < |input|
    requires IsDigit(input[s.pos]) && IsLineBreak(input[s.pos + 1])
    requires InBounds(d, s) && s.col == d.cols - 1 && s.row == d.rows - 1
    ensures Run(d, input, s) ==
            Run(d, input, s.(layer := s.layer + 1, row := 0, col := 0, pos := s.pos + 2,
                             cells := Store(d, s.(token := [input[s.pos]]))))
  {
    ReadOneDigit(d, input, s);
  }

  /** A layout of two rows of four keys, written one row per line with
      the first line ending in a key, is rejected at the first line break:
      the layer has only one row. */
  lemma RowsOnSeparateLines(d: Dims, input: string)
    requires d.rows == 2 && d.cols == 4 && d.maxLayers > 0
    requires |input| >= 8 && input[..8] == "1,2,3,4\n"
    ensures Parse(d, input) == Failed(TooFewRows(1, 1, 4, 8))
  {
    assert input[0] == '1' && input[1] == ',' && input[2] == '2' && input[3] == ',';
    assert input[4] == '3' && input[5] == ',' && input[6] == '4' && input[7] == '\n';
    KeyThenComma(d, input, Start);
    var s1 := Start.(col := 1, pos := 2, cells := Store(d, Start.(token := "1")));
    KeyThenComma(d, input, s1);
    var s2 := s1.(col := 2, pos := 4, cells := Store(d, s1.(token := "2")));
    KeyThenComma(d, input, s2);
    var s3 := s2.(col := 3, pos := 6, cells := Store(d, s2.(token := "3")));
    KeyThenEarlyLineBreak(d, input, s3);
  }

  /** With one key per layer, a lone key without a line break is stored
      at offset 0 while the layer count stays 0. */
  lemma LastLayerWithoutLineBreak(d: Dims, c: char)
    requires d.rows == 1 && d.cols == 1 && d.maxLayers > 0 && IsDigit(c)
    ensures Parse(d, [c]) == Parsed(0, map[0 := KeyCode([c])])
  {
    ReadOneDigit(d, [c], Start);
  }

  /** A lone key is accepted whatever the dimensions: at the end of the
      text the cursor stands in row 0 and column 0, which the final check
      lets through, so the key is stored and no layer is counted. */
  lemma LoneKeyIsAccepted(d: Dims, c: char)
    requires d.Valid() && d.maxLayers > 0 && IsDigit(c)
    ensures Parse(d, [c]) == Parsed(0, map[0 := KeyCode([c])])
  {
    ReadOneDigit(d, [c], Start);
    assert CellIndex(d, 0, 0, 0) == 0;
  }

  /** The same key closed by a line break makes one layer. */
  lemma LastLayerWithLineBreak(d: Dims, c: char)
    requires d.rows == 1 && d.cols == 1 && d.maxLayers > 0 && IsDigit(c)
    ensures Parse(d, [c, '\n']) == Parsed(1, map[0 := KeyCode([c])])
  {
    ReadOneDigit(d, [c, '\n'], Start);
    var s := Start.(mode := Digit, token := [c], pos := 1);
    assert Run(d, [c, '\n'], s) == Run(d, [c, '\n'], Scanner(Whitespace, 1, 0, 0, [], 2, Store(d, s)));
  }

  /** Three one-digit keys, each followed by a comma, inside a row: the
      cursor moves three columns to the right. */
  lemma ThreeKeysInRow(d: Dims, input: string, s: Scanner) returns (s': Scanner)
    requires s.mode == Whitespace && s.token == [] && s.pos + 6 < |input|
    requires IsDigit(input[s.pos]) && IsDigit(input[s.pos + 2]) && IsDigit(input[s.pos + 4])
    requires input[s.pos + 1] == ',' && input[s.pos + 3] == ',' && input[s.pos + 5] == ','
    requires InBounds(d, s) && s.col + 3 < d.cols
    ensures s' == s.(col := s.col + 3, pos := s.pos + 6, cells := s'.cells)
    ensures Run(d, input, s) == Run(d, input, s')
  {
    KeyThenComma(d, input, s);
    var s1 := s.(col := s.col + 1, pos := s.pos + 2, cells := Store(d, s.(token := [input[s.pos]])));
    KeyThenComma(d, input, s1);
    var s2 := s1.(col := s.col + 2, pos := s.pos + 4, cells := Store(d, s1.(token := [input[s.pos + 2]])));
    KeyThenComma(d, input, s2);
    s' := s2.(col := s.col + 3, pos := s.pos + 6, cells := Store(d, s2.(token := [input[s.pos + 4]])));
  }

  /** With two rows of four keys, a first line `1,2,3,4,` leaves the
      cursor at the start of the second row once its line break is
      skipped. */
  lemma FirstRowEndsInComma(d: Dims, input: string) returns (cells: map<nat, u16>)
    requires d.rows == 2 && d.cols == 4 && d.maxLayers > 0
    requires |input| >= 9 && input[..9] == "1,2,3,4,\n"
    ensures Parse(d, input) == Run(d, input, Scanner(Whitespace, 0, 1, 0, [], 9, cells))
  {
    assert input[0] == '1' && input[1] == ',' && input[2] == '2' && input[3] == ',';
    assert input[4] == '3' && input[5] == ',' && input[6] == '4' && input[7] == ',' && input[8] == '\n';
    var s3 := ThreeKeysInRow(d, input, Start);
    KeyThenRowEndComma(d, input, s3);
    var s4 := s3.(row := 1, col := 0, pos := 8, cells := Store(d, s3.(token := [input[6]])));
    assert Run(d, input, s4) == Run(d, input, s4.(pos := 9));
    cells := s4.cells;
  }

  /** A second row `5,6,7,8` closed by a line break at the end of the
      text completes the first layer. */
  lemma SecondRowClosesLayer(d: Dims, input: string, s: Scanner)
    requires d.rows == 2 && d.cols == 4 && d.maxLayers > 0
    requires s.mode == Whitespace && s.token == [] && s.layer == 0 && s.row == 1 && s.col == 0
    requires s.pos + 8 == |input| && input[s.pos..] == "5,6,7,8\n"
    ensures Run(d, input, s).Parsed? && Run(d, input, s).nlayers == 1
  {
    var p := s.pos;
    assert input[p] == '5' && input[p + 1] == ',' && input[p + 2] == '6' && input[p + 3] == ',';
    assert input[p + 4] == '7' && input[p + 5] == ',' && input[p + 6] == '8' && input[p + 7] == '\n';
    var s3 := ThreeKeysInRow(d, input, s);
    KeyThenLayerEnd(d, input, s3);
    var s4 := s3.(layer := 1, row := 0, col := 0, pos := p + 8, cells := Store(d, s3.(token := [input[p + 6]])));
    assert Run(d, input, s4) == Parsed(1, s4.cells);
  }

  /** The same two rows of four keys, with the first line ending in a
      comma: the line break after the comma is skipped, and the file
      parses to one layer whose rows are on two lines. */
  lemma RowContinuesAfterComma(d: Dims, input: string)
    requires d.rows == 2 && d.cols == 4 && d.maxLayers > 0
    requires |input| == 17 && input[..9] == "1,2,3,4,\n" && input[9..] == "5,6,7,8\n"
    ensures Parse(d, input).Parsed? && Parse(d, input).nlayers == 1
  {
    var cells := FirstRowEndsInComma(d, input);
    SecondRowClosesLayer(d, input, Scanner(Whitespace, 0, 1, 0, [], 9, cells));
  }
}
