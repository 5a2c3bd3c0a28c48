# blusb keyboard layouts, in Dafny

This project models the layout core of the blusb keyboard tool, `src/layout.c`:

- **`bl_create_layout`** makes a layout object. It holds a layer count and a matrix of
  16-bit key codes. The matrix is indexed by layer, row and column, and has room for
  `NUMLAYERS_MAX` layers of `NUMROWS` × `NUMCOLS` keys.
- **`bl_parse_layout_file`** reads a layout file with a two-state scanner (DIGIT and
  WHITESPACE) and fills the matrix in place. The rules it follows:
  - a comma ends a key;
  - a line break (`\n` or `\r`) directly after a key ends the key and closes a layer;
  - blanks between keys are skipped, line breaks after a comma included;
  - a number of 20 digits or more, a character that is not expected after a digit, and
    a line break after a key before the layer's last row or column are all errors;
  - at the end of the file, an unclosed last layer is rejected only when it stops in a
    row strictly between the first and the last, or at a column strictly between the
    first and the last. Otherwise its keys are stored and it is not counted.
- **`bl_layout_convert`** turns the layout into the byte array sent to the keyboard:
  16-bit little-endian words.

The dimensions `NUMROWS`, `NUMCOLS` and `NUMLAYERS_MAX` are parameters, given by a
`Dims` value. The matrix is a flat `array<u16>` indexed layer-major, then row-major
(`CellIndex`). The file contents are a `string`.

Modules:

- `LayoutTypes` (`layout_types.dfy`): 8- and 16-bit newtypes, `Option`, `Dims`, the flat
  cell index with its bounds and its inverse, and the `Layout` class.
- `ParseSpec` (`parse_spec.dfy`): the scanner as a pure step function over a `Scanner`
  state: `Step`, `Run`, `Finish` and `Parse`. It defines `Numbers`, the maximal digit
  runs of a text, and proves by induction over the run what a parse stores and when it
  fails.
- `Parser` (`parser.dfy`): `bl_parse_layout_file` as an imperative loop over the
  characters. It writes into the layout's matrix and is proved to compute `Parse`.
- `Convert` (`convert.dfy`): `bl_layout_convert` as written, as a triple loop over an
  array. Beside it are the corrected encoding and a decoder, with their round trips.
- `Scenarios` (`scenarios.dfy`): worked inputs that show how the scanner treats line
  breaks.

Main results:

1. **What a successful parse stores.** Cell k holds the k-th number of the file, taken
   mod 65536 (`ParseSpec.ParseStoresNumbersInOrder`). The layer count is the number of
   line breaks that directly follow a digit. Each such line break closes a full layer
   of `rows × cols` numbers (`ParseSpec.LayerBreaksCloseFullLayers`).
2. **The imperative parser computes the pure parse.** `Parser.ParseLayoutFile` returns
   a fresh layout whose written cells agree with `Parse`, or exactly the failure that
   `Parse` reports.

The code, not the format description, decides the behaviour. Where the two differ:

- **A line break after a key closes the layer.** A layer written one row per line,
  each line ending in a key, is rejected at its first line break with "too few rows"
  (`Scenarios.RowsOnSeparateLines`). A line break after a comma is skipped as a blank,
  so a row may continue on the next line when the line ends in a comma
  (`Scenarios.RowContinuesAfterComma`).
- **An unclosed last layer is not counted.** Without a closing line break the last
  layer's keys are stored, but the layer count leaves that layer out
  (`Scenarios.LastLayerWithoutLineBreak`).
- **An unclosed last layer may be incomplete.** The end-of-file check looks only at
  whether the cursor stands in a middle row or a middle column. A lone key is
  accepted whatever the dimensions (`Scenarios.LoneKeyIsAccepted`).
- **An empty or blank file parses.** It gives zero layers whatever the dimensions
  (`ParseSpec.BlankInputHasNoLayers`).
- **A stray character is not reported as a failure.** Outside a number, a character
  that is neither blank nor a digit makes the C loop print a message and spin on that
  character forever. The model reports this as the distinct outcome `Stuck`.

## Model

| member | source | states |
|---|---|---|
| LayoutTypes.CellIndexBounds | src/layout.c:34-37 | the cells of layer `l` occupy offsets `l*R*C` up to `(l+1)*R*C`; a layer below the capacity stays inside the matrix |
| LayoutTypes.CellIndexInverse | src/layout.c:34-37 | distinct (layer, row, column) triples have distinct offsets: `CellOf` recovers the cell from its offset |
| LayoutTypes.CellOfInverse | src/layout.c:34-37 | every offset is the offset of exactly one in-range cell |
| LayoutTypes.Layout.constructor | src/layout.c:51-57 | a new layout has the requested layer count and a fresh matrix sized for `maxLayers` layers; the contents are unspecified |
| ParseSpec.Numbers | src/layout.c:95-104 | the tokens of a text are non-empty digit strings, and a text ending in a digit has at least one |
| ParseSpec.Step | src/layout.c:94-149 | one loop iteration consumes a character, or switches WHITESPACE to DIGIT without consuming; it gets stuck exactly on a character that is neither blank nor a digit, met in WHITESPACE |
| ParseSpec.ParseStoresNumbersInOrder | src/layout.c:105-157 | on success, cell k holds the k-th maximal digit run mod 65536 and nothing else is stored; the layer count is the number of line breaks directly after a digit |
| ParseSpec.ParsedLayerBounds | src/layout.c:116-132 | on success, the count is at most `maxLayers`; the counted layers are full; at most one further layer is partly filled; nothing is stored beyond the matrix |
| ParseSpec.LayerBreaksCloseFullLayers | src/layout.c:116-132 | on success, every line break after a digit closes a layer: the numbers up to it fill exactly the layers closed so far, `rows*cols` each |
| ParseSpec.ParsedTextIsWellFormed | src/layout.c:94-149 | a file that parses holds only digits, blanks and commas, and its numbers have at most 19 digits |
| ParseSpec.StuckOnlyOnStrayChar | src/layout.c:146-148 | the loop spins only on a stray character at the reported offset that does not follow a digit |
| ParseSpec.BufferFullOnTwentiethDigit | src/layout.c:96-99 | the buffer overflow is reported at the 20th digit of a run: the 20 characters up to the offset are digits and the one before them, if any, is not |
| ParseSpec.UnexpectedCharFollowsDigit | src/layout.c:133-137 | the unexpected-character error names a character that directly follows a digit and is not a digit, comma or line break |
| ParseSpec.BlankInputHasNoLayers | src/layout.c:140-142 | a file of blanks only, the empty file included, parses to zero layers and no cells |
| Parser.ParseLayoutFile | src/layout.c:63-169 | the loop returns a fresh layout whose count and written cells are those of `Parse`, or no layout together with exactly the failure `Parse` gives |
| Parser.ScanDigit | src/layout.c:94-138 | one character in the DIGIT state is appended to the buffer, or stores the key and moves the cursor, or fails, exactly as `Step` says |
| Parser.FinishParse | src/layout.c:151-168 | the end of input stores the pending key, sets `nlayers` to the layer reached and validates the final position, exactly as `Finish` says |
| Convert.CopyCells | src/layout.c:31-40 | the triple loop puts cell k of the first `nlayers` layers into word `first + k` and leaves every other byte as it was |
| Convert.LayoutConvert | src/layout.c:26-43 | as written: a fresh array of `2*(1+nlayers*R*C)` bytes; cell k is in word k; the count survives only when there are no cells; the last word is left unconstrained |
| Convert.AsWrittenIsShifted | src/layout.c:29-37 | the as-written bytes are the intended encoding moved one word down, and word 0 is the first cell, not the layer count |
| Convert.AsWrittenLosesLayerCount | src/layout.c:29-37 | one layer of one key with code 7 converts to bytes whose first word is 7, and which do not decode at all (a count of 7 needs 16 bytes, there are 4), while the corrected encoding does |
| Convert.LayoutEncode | src/layout.c:16-20 | the corrected conversion returns exactly `Encode`: the count in word 0, then cell k in word k+1 |
| Convert.EncodeLayout | src/layout.c:16-20 | the encoding is `2*(1+cells)` bytes long, with the count in its first two bytes and the cells after them |
| Convert.DecodeEncode | src/layout.c:16-20 | decoding the encoding of fewer than 65536 layers gives back the count and the cells |
| Convert.EncodeDecode | src/layout.c:16-20 | every byte string that decodes is the encoding of what it decodes to |
| Convert.UnwordsWords | src/layout.c:16-20 | reading little-endian words back gives the words written |
| Convert.WordsUnwords | src/layout.c:16-20 | every even-length byte string is the little-endian encoding of its words |
| Scenarios.ReadOneDigit | src/layout.c:143-145 | a digit met in WHITESPACE switches to DIGIT without being consumed and is then buffered |
| Scenarios.KeyThenComma | src/layout.c:105-115 | a one-digit key and a comma store the key at the cursor and advance the column |
| Scenarios.KeyThenEarlyLineBreak | src/layout.c:125-128 | a line break after the last column of a row that is not the layer's last row fails with "too few rows" at that line and key |
| Scenarios.KeyThenRowEndComma | src/layout.c:105-112 | a one-digit key and a comma in the last column store the key and move the cursor to column 0 of the next row |
| Scenarios.KeyThenLayerEnd | src/layout.c:116-132 | a one-digit key in the last column of the last row, followed by a line break, is stored and closes the layer |
| Scenarios.RowsOnSeparateLines | src/layout.c:116-129 | with 2 rows of 4 keys, a file whose first line is `1,2,3,4` fails at offset 8 with one row found |
| Scenarios.RowContinuesAfterComma | src/layout.c:105-145 | with 2 rows of 4 keys, the file `1,2,3,4,` / `5,6,7,8` (each line closed by a line break) parses to one layer: the line break after the comma is skipped |
| Scenarios.LastLayerWithoutLineBreak | src/layout.c:154-157 | a last key without a closing line break is stored, and its layer is not counted |
| Scenarios.LoneKeyIsAccepted | src/layout.c:151-168 | for any dimensions, a text of one key parses to zero layers with that key stored at offset 0: the final check accepts a cursor at row 0, column 0 |
| Scenarios.LastLayerWithLineBreak | src/layout.c:116-132 | the same key closed by a line break makes one counted layer |

## Left out

- File handling is not modelled: `fopen`, `fgetc`, `feof`, `ftell` and `fclose`. The
  contents arrive as a `string`. A reported offset is the 0-based index of the offending
  character plus one, which is what `ftell` gives just after reading it.
- The `printf` diagnostics are not modelled. Each failure is a `Failure` value carrying
  the numbers the message prints. "Not enough entries" carries `1+col+row*col`, the
  formula as written, not the number of keys read.
- Memory management is not modelled: `malloc` and `free`. The `fclose` missing on the
  early error returns is not modelled either.
- `bl_layout_print`, the USB transfer of the converted bytes, and the other files of
  the repository are not part of this model.
- Parser.ParseLayoutFile: the C loop spins forever on a stray character met in the
  WHITESPACE state. The model stops there with the outcome `Stuck`, because a Dafny
  method must terminate.
- Parser.ParseLayoutFile: writing past the matrix is undefined behaviour in C. This
  happens on a key after the last row of a layer (the comma wrap sets `row` to
  `NUMROWS`) or on a layer past `NUMLAYERS_MAX`. The model stops with the outcome
  `OutOfBounds` instead of writing into a neighbouring layer.
- Parser.ParseLayoutFile: the model requires that every number of at most 19 digits
  fits in an `int`, since `atoi` beyond that range is undefined. It then stores the
  decimal value mod 65536. The requirement also covers numbers after the point where
  a parse stops.
- Parser.ParseLayoutFile: cells the parse does not write are left as allocated, and the
  contract says nothing about them, matching the C code, which never initialises the
  matrix.
- `isdigit` on characters outside ASCII and signed `char` values are not modelled.
  Characters are Dafny `char`s.
- Convert.LayoutConvert: the C code stores each `uint16_t` into the byte array through a
  cast, in the host's byte order. The model takes the host to be little-endian, the
  order the keyboard expects.
- Convert.LayoutConvert: requires `nlayers <= NUMLAYERS_MAX`, since the C loop reads
  `matrix[layer]` for every layer below `nlayers`. The `int` arithmetic of the
  allocation size is taken to be exact.
- Convert.LayoutConvert: the word past the last cell is never written. The contract
  leaves it unconstrained and does not state that it is uninitialised.

## Findings

| source | as written | input that shows it | evidently intended | confidence | as-written member | corrected member |
|---|---|---|---|---|---|---|
| src/layout.c:30-37 | the `n` declared inside the loop hides the outer `n`, so cell k is written to word k: the first cell overwrites the layer count in word 0, and the last word is never written | one layer of one key holding code 7: word 0 is 7, not the count 1, and the bytes do not decode at all | the layer count in word 0 and cell k in word k+1, as the doc comment on lines 16-20 describes | high, not executed | Convert.AsWrittenLosesLayerCount | Convert.LayoutEncode |
