/** `bl_layout_convert`: the layout as the byte array sent to the
    keyboard, 16-bit words in little-endian order. The function as written
    stores the cells one word too early, over the layer count; the
    corrected encoding puts the count first and the cells after it. */
module Convert {
  import opened LayoutTypes

  /** The low and high byte of a 16-bit word. */
  function Lo(v: u16): u8 { (v % 0x100) as u8 }
  function Hi(v: u16): u8 { (v / 0x100) as u8 }

  /** A word in little-endian order. */
  function LE(v: u16): (b: seq<u8>)
    ensures |b| == 2
  {
    [Lo(v), Hi(v)]
  }

  /** The word held by bytes `2 * k` and `2 * k + 1`. */
  function Word(b: seq<u8>, k: nat): u16
    requires 2 * k + 1 < |b|
  {
    (b[2 * k] as int + 0x100 * b[2 * k + 1] as int) as u16
  }

  /** A sequence of words, each in little-endian order. */
  function Words(ws: seq<u16>): (b: seq<u8>)
    ensures |b| == 2 * |ws|
  {
    if ws == [] then [] else LE(ws[0]) + Words(ws[1..])
  }

  /** The words of a byte string of even length. */
  function Unwords(b: seq<u8>): (ws: seq<u16>)
    requires |b| % 2 == 0
    ensures 2 * |ws| == |b|
  {
    if b == [] then [] else [Word(b, 0)] + Unwords(b[2..])
  }

  /** The layer count as the 16-bit word it is stored in. */
  function Count(nlayers: nat): u16 { (nlayers % 0x1_0000) as u16 }

  /** The number of cells in `nlayers` layers. */
  function Cells(d: Dims, nlayers: nat): nat { nlayers * d.rows * d.cols }

  /** The intended byte array: the layer count, then every cell of the
      first `nlayers` layers, layer by layer and row by row. */
  function Encode(d: Dims, nlayers: nat, cells: seq<u16>): seq<u8>
    requires |cells| == Cells(d, nlayers)
  {
    Words([Count(nlayers)] + cells)
  }

  /** Reads a byte array back: the layer count, then as many cells as
      that many layers hold; `None` if the length does not match. */
  function Decode(d: Dims, b: seq<u8>): Option<(u16, seq<u16>)>
  {
    if |b| < 2 || |b| % 2 != 0 then None
    else
      var n := Word(b, 0);
      if |b| != 2 * (1 + Cells(d, n as nat)) then None
      else Some((n, Unwords(b[2..])))
  }

  /** The bytes `bl_layout_convert` leaves in its result: room for the
      count and the cells; the cells from word 0 on, the count only where
      no cell overwrote it; the last word is never written. */
  ghost predicate AsWritten(d: Dims, nlayers: nat, m: seq<u16>, b: seq<u8>)
    requires Cells(d, nlayers) <= |m|
  {
    var n := Cells(d, nlayers);
    && |b| == 2 * (1 + n)
    && b[..2 * n] == Words(m[..n])
    && (n == 0 ==> b == LE(Count(nlayers)))
  }

  // ---------------------------------------------------------------------
  // Properties of the encoding

  lemma WordOfLE(v: u16)
    ensures Word(LE(v), 0) == v
  {
  }

  lemma {:induction false} WordsAt(ws: seq<u16>, k: nat)
    requires k < |ws|
    ensures Words(ws)[2 * k] == Lo(ws[k]) && Words(ws)[2 * k + 1] == Hi(ws[k])
  {
    if k > 0 {
      WordsAt(ws[1..], k - 1);
    }
  }

  /** Bytes that hold each word at its place are the encoding of the words. */
  lemma {:induction false} WordsFromBytes(b: seq<u8>, ws: seq<u16>)
    requires |b| == 2 * |ws|
    requires forall k | 0 <= k < |ws| :: b[2 * k] == Lo(ws[k]) && b[2 * k + 1] == Hi(ws[k])
    ensures b == Words(ws)
  {
    if ws != [] {
      forall k | 0 <= k < |ws| - 1
        ensures b[2..][2 * k] == Lo(ws[1..][k]) && b[2..][2 * k + 1] == Hi(ws[1..][k])
      {
        assert b[2 * (k + 1)] == Lo(ws[k + 1]);
        assert b[2 * (k + 1) + 1] == Hi(ws[k + 1]);
      }
      WordsFromBytes(b[2..], ws[1..]);
      assert b == b[..2] + b[2..];
      assert b[..2] == LE(ws[0]) by {
        assert b[0] == Lo(ws[0]) && b[1] == Hi(ws[0]);
      }
    }
  }

  /** Reading the words back gives the words that were written. */
  lemma {:induction false} UnwordsWords(ws: seq<u16>)
    ensures Unwords(Words(ws)) == ws
  {
    if ws != [] {
      var b := Words(ws);
      WordOfLE(ws[0]);
      assert b[2..] == Words(ws[1..]);
      UnwordsWords(ws[1..]);
    }
  }

  /** Every byte string of even length is the encoding of its words. */
  lemma {:induction false} WordsUnwords(b: seq<u8>)
    requires |b| % 2 == 0
    ensures Words(Unwords(b)) == b
  {
    if b != [] {
      WordsUnwords(b[2..]);
      var v := Word(b, 0);
      assert LE(v) == b[..2];
      assert b == b[..2] + b[2..];
    }
  }

  /** The count is the first word of the encoding and the cells follow it. */
  lemma EncodeLayout(d: Dims, nlayers: nat, cells: seq<u16>)
    requires |cells| == Cells(d, nlayers)
    ensures |Encode(d, nlayers, cells)| == 2 * (1 + |cells|)
    ensures Encode(d, nlayers, cells)[..2] == LE(Count(nlayers))
    ensures Encode(d, nlayers, cells)[2..] == Words(cells)
  {
    assert ([Count(nlayers)] + cells)[1..] == cells;
  }

  /** Decoding the encoding of up to 65535 layers gives back the count
      and the cells. */
  lemma DecodeEncode(d: Dims, nlayers: nat, cells: seq<u16>)
    requires |cells| == Cells(d, nlayers) && nlayers < 0x1_0000
    ensures Decode(d, Encode(d, nlayers, cells)) == Some((nlayers as u16, cells))
  {
    var b := Encode(d, nlayers, cells);
    EncodeLayout(d, nlayers, cells);
    assert Word(b, 0) == nlayers as u16 by {
      WordOfLE(Count(nlayers));
      assert b[..2] == LE(Count(nlayers));
    }
    UnwordsWords(cells);
  }

  /** Whatever `Decode` accepts is the encoding of what it returns. */
  lemma EncodeDecode(d: Dims, b: seq<u8>)
    requires Decode(d, b).Some?
    ensures var (n, cells) := Decode(d, b).value;
            |cells| == Cells(d, n as nat) && Encode(d, n as nat, cells) == b
  {
    var (n, cells) := Decode(d, b).value;
    WordsUnwords(b[2..]);
    EncodeLayout(d, n as nat, cells);
    var e := Encode(d, n as nat, cells);
    assert e[..2] == b[..2] by {
      assert LE(n) == b[..2];
    }
    assert e == e[..2] + e[2..];
    assert b == b[..2] + b[2..];
  }

  // ---------------------------------------------------------------------
  // The conversion, as written and corrected

  lemma CellsBelow(d: Dims, layer: nat, nlayers: nat, row: nat, col: nat)
    requires d.Valid() && layer < nlayers && row < d.rows && col < d.cols
    ensures CellIndex(d, layer, row, col) < Cells(d, nlayers)
  {
    CellIndexBounds(d, layer, row, col);
    LayerProduct(layer + 1, d.rows, d.cols);
    LayerProduct(nlayers, d.rows, d.cols);
    MulMonotone(layer + 1, nlayers, d.rows * d.cols);
  }

  lemma NextRow(d: Dims, layer: nat, row: nat)
    requires d.Valid()
    ensures CellIndex(d, layer, row, d.cols) == CellIndex(d, layer, row + 1, 0)
    ensures CellIndex(d, layer, d.rows, 0) == CellIndex(d, layer + 1, 0, 0)
  {
    assert (row + 1) * d.cols == row * d.cols + d.cols;
    LayerProduct(layer, d.rows, d.cols);
    LayerProduct(layer + 1, d.rows, d.cols);
  }

  /** Words `first` to `first + count - 1` of `b` hold the first `count`
      cells of `m`. */
  ghost predicate Copied(b: seq<u8>, m: seq<u16>, first: nat, count: nat) {
    && 2 * (first + count) <= |b| && count <= |m|
    && forall k | 0 <= k < count :: b[2 * (first + k)] == Lo(m[k]) && b[2 * (first + k) + 1] == Hi(m[k])
  }

  /** Bytes outside words `first` to `first + count - 1` are those of `b0`. */
  ghost predicate Untouched(b: seq<u8>, b0: seq<u8>, first: nat, count: nat) {
    && |b| == |b0|
    && (forall i | 0 <= i < 2 * first && i < |b| :: b[i] == b0[i])
    && (forall i | 2 * (first + count) <= i < |b| :: b[i] == b0[i])
  }

  lemma CopyOne(b: seq<u8>, b0: seq<u8>, m: seq<u16>, first: nat, count: nat)
    requires Copied(b, m, first, count) && Untouched(b, b0, first, count)
    requires count < |m| && 2 * (first + count + 1) <= |b|
    ensures var j := 2 * (first + count);
            var b' := b[j := Lo(m[count])][j + 1 := Hi(m[count])];
            Copied(b', m, first, count + 1) && Untouched(b', b0, first, count + 1)
  {
  }

  /** The triple loop of `bl_layout_convert`: the cell at flat offset `k`
      of the first `nlayers` layers goes to word `first + k` of `data`;
      the bytes before word `first` and after the last cell keep their
      values. */
  method CopyCells(layout: Layout, data: array<u8>, first: nat)
    requires layout.Valid() && layout.nlayers <= layout.dims.maxLayers
    requires 2 * (first + Cells(layout.dims, layout.nlayers)) <= data.Length
    modifies data
    ensures Copied(data[..], layout.matrix[..], first, Cells(layout.dims, layout.nlayers))
    ensures Untouched(data[..], old(data[..]), first, Cells(layout.dims, layout.nlayers))
  {
    var d := layout.dims;
    ghost var n := Cells(d, layout.nlayers);
    ghost var m := layout.matrix[..];
    ghost var next := 0;
    LayerBound(d, layout.nlayers);
    var layer := 0;
    while layer < layout.nlayers
      invariant layer <= layout.nlayers && next == CellIndex(d, layer, 0, 0) && next <= n
      invariant Copied(data[..], m, first, next) && Untouched(data[..], old(data[..]), first, next)
    {
      var row := 0;
      while row < d.rows
        invariant row <= d.rows && next == CellIndex(d, layer, row, 0)
        invariant Copied(data[..], m, first, next) && Untouched(data[..], old(data[..]), first, next)
      {
        var col := 0;
        while col < d.cols
          invariant col <= d.cols && next == CellIndex(d, layer, row, col)
          invariant Copied(data[..], m, first, next) && Untouched(data[..], old(data[..]), first, next)
        {
          var k := CellIndex(d, layer, row, col);
          CellsBelow(d, layer, layout.nlayers, row, col);
          CopyOne(data[..], old(data[..]), m, first, k);
          var v := layout.matrix[k];
          data[2 * (first + k)] := Lo(v);
          data[2 * (first + k) + 1] := Hi(v);
          next := next + 1;
          col := col + 1;
        }
        NextRow(d, layer, row);
        row := row + 1;
      }
      NextRow(d, layer, d.rows);
      if layer + 1 < layout.nlayers {
        CellsBelow(d, layer + 1, layout.nlayers, 0, 0);
      } else {
        LayerProduct(layer + 1, d.rows, d.cols);
      }
      layer := layer + 1;
    }
    assert next == n by {
      LayerProduct(layer, d.rows, d.cols);
    }
  }

  /** Cells copied from word 0 on form the encoding of those cells. */
  lemma CopiedWords(b: seq<u8>, m: seq<u16>, n: nat)
    requires Copied(b, m, 0, n)
    ensures b[..2 * n] == Words(m[..n])
  {
    WordsFromBytes(b[..2 * n], m[..n]);
  }

  /** A count in word 0 and cells copied from word 1 on form the encoding
      of the count followed by the cells. */
  lemma CopiedAfterCount(b: seq<u8>, m: seq<u16>, count: u16, n: nat)
    requires Copied(b, m, 1, n) && |b| == 2 * (1 + n) && b[0] == Lo(count) && b[1] == Hi(count)
    ensures b == Words([count] + m[..n])
  {
    var ws := [count] + m[..n];
    forall k | 0 <= k < |ws|
      ensures b[2 * k] == Lo(ws[k]) && b[2 * k + 1] == Hi(ws[k])
    {
      if k > 0 {
        assert ws[k] == m[k - 1];
        assert 2 * k == 2 * (1 + (k - 1));
      }
    }
    WordsFromBytes(b, ws);
  }

  /** `bl_layout_convert` as written: the count goes to word 0, and the
      cell at flat offset k to word k. The outer word index is never used;
      the inner loop declares its own, which starts at word 0. */
  method LayoutConvert(layout: Layout) returns (data: array<u8>)
    requires layout.Valid() && layout.nlayers <= layout.dims.maxLayers
    ensures fresh(data)
    ensures Cells(layout.dims, layout.nlayers) <= layout.matrix.Length
    ensures AsWritten(layout.dims, layout.nlayers, layout.matrix[..], data[..])
  {
    var n := Cells(layout.dims, layout.nlayers);
    data := new u8[2 * (1 + n)];
    var count := Count(layout.nlayers);
    data[0], data[1] := Lo(count), Hi(count);
    CopyCells(layout, data, 0);
    LayerBound(layout.dims, layout.nlayers);
    CopiedWords(data[..], layout.matrix[..], n);
  }

  /** The corrected conversion: the count in word 0 and the cell at flat
      offset k in word k + 1. */
  method LayoutEncode(layout: Layout) returns (data: array<u8>)
    requires layout.Valid() && layout.nlayers <= layout.dims.maxLayers
    ensures fresh(data)
    ensures Cells(layout.dims, layout.nlayers) <= layout.matrix.Length
    ensures data[..] == Encode(layout.dims, layout.nlayers, layout.matrix[..Cells(layout.dims, layout.nlayers)])
  {
    var n := Cells(layout.dims, layout.nlayers);
    data := new u8[2 * (1 + n)];
    var count := Count(layout.nlayers);
    data[0], data[1] := Lo(count), Hi(count);
    CopyCells(layout, data, 1);
    LayerBound(layout.dims, layout.nlayers);
    CopiedAfterCount(data[..], layout.matrix[..], count, n);
  }

  lemma LayerBound(d: Dims, nlayers: nat)
    requires nlayers <= d.maxLayers
    ensures Cells(d, nlayers) <= d.maxLayers * d.rows * d.cols
  {
    LayerProduct(nlayers, d.rows, d.cols);
    LayerProduct(d.maxLayers, d.rows, d.cols);
    MulMonotone(nlayers, d.maxLayers, d.rows * d.cols);
  }

  /** As written, the first cell takes the place of the layer count and
      every cell sits one word before its place in the intended encoding. */
  lemma AsWrittenIsShifted(d: Dims, nlayers: nat, m: seq<u16>, b: seq<u8>)
    requires d.Valid() && Cells(d, nlayers) <= |m| && AsWritten(d, nlayers, m, b)
    ensures var n := Cells(d, nlayers);
            b[..2 * n] == Encode(d, nlayers, m[..n])[2..]
    ensures nlayers > 0 ==> Word(b, 0) == m[0]
  {
    var n := Cells(d, nlayers);
    EncodeLayout(d, nlayers, m[..n]);
    if nlayers > 0 {
      LayerProduct(nlayers, d.rows, d.cols);
      MulMonotone(1, nlayers, d.rows * d.cols);
      WordsAt(m[..n], 0);
      assert b[0] == b[..2 * n][0] && b[1] == b[..2 * n][1];
    }
  }

  /** One layer of one key holding key code 7: the bytes as written read
      back as seven layers, not one, which would need 16 bytes where there
      are 4, and so do not decode at all. */
  lemma AsWrittenLosesLayerCount(b: seq<u8>)
    requires AsWritten(Dims(1, 1, 1), 1, [7], b)
    ensures Word(b, 0) == 7
    ensures Decode(Dims(1, 1, 1), b).None?
    ensures Decode(Dims(1, 1, 1), Encode(Dims(1, 1, 1), 1, [7])) == Some((1, [7]))
  {
    assert b[..2] == Words([7]);
    assert b[0] == 7 && b[1] == 0;
    DecodeEncode(Dims(1, 1, 1), 1, [7]);
  }
}
