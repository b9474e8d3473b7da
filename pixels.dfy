/**
 * Pixel matrices as both steganography files handle them: the flat RGBA
 * `ImageData.data` array turned into rows of pixel records and back,
 * the crop to whole 8×8 blocks, and the split of a block into its red,
 * green and blue channels and their merge back into pixels.
 */
module Pixels {
  import opened Js

  /** `{r, g, b, a}`: one pixel, as read from an `ImageData` or rebuilt by `mergeRGBChannels`. */
  datatype Pixel = Pixel(r: int, g: int, b: int, a: int)

  /** A matrix of exactly `height` rows of `width` cells. */
  predicate IsRect<T>(m: seq<seq<T>>, height: nat, width: nat)
  {
    |m| == height && forall y :: 0 <= y < height ==> |m[y]| == width
  }

  /** Every cell (y, x) with y < height and x < width exists. */
  predicate Covers<T>(m: seq<seq<T>>, height: nat, width: nat)
  {
    |m| >= height && forall y :: 0 <= y < height ==> |m[y]| >= width
  }

  function Min(a: int, b: int): int { if a <= b then a else b }

  // ---------------------------------------------------------------------
  // cropToMultipleOf8
  // ---------------------------------------------------------------------

  /**
   * `cropToMultipleOf8`: the first floor(h/8)·8 rows, each cut to the
   * first floor(w0/8)·8 cells, w0 being the length of the first row;
   * None where `image[0]` is undefined and `.length` throws.
   */
  function Crop<T>(image: seq<seq<T>>): (r: Option<seq<seq<T>>>)
    ensures r.Some? <==> |image| > 0
  {
    if |image| == 0 then None
    else
      var width := |image[0]| / 8 * 8;
      Some(seq(|image| / 8 * 8, y requires 0 <= y < |image| => image[y][..Min(|image[y]|, width)]))
  }

  /** On a rectangular image the crop keeps whole blocks and leaves every kept cell as it was. */
  lemma CropShape<T>(image: seq<seq<T>>, height: nat, width: nat)
    requires height > 0 && IsRect(image, height, width)
    ensures Crop(image).Some?
    ensures IsRect(Crop(image).value, height / 8 * 8, width / 8 * 8)
    ensures forall y, x :: 0 <= y < height / 8 * 8 && 0 <= x < width / 8 * 8 ==> Crop(image).value[y][x] == image[y][x]
  {
  }

  lemma WholeBlocks(k: nat)
    ensures k * 8 / 8 * 8 == k * 8
  {
  }

  /** Cropping a crop changes nothing. */
  lemma CropIdempotent<T>(image: seq<seq<T>>, height: nat, width: nat)
    requires height >= 8 && IsRect(image, height, width)
    ensures Crop(Crop(image).value) == Crop(image)
  {
    var c := Crop(image).value;
    CropShape(image, height, width);
    assert |c| > 0;
    CropShape(c, height / 8 * 8, width / 8 * 8);
    WholeBlocks(height / 8);
    WholeBlocks(width / 8);
    var w := width / 8 * 8;
    assert |c| == height / 8 * 8 && |c[0]| == w && |c[0]| / 8 * 8 == w;
    forall y | 0 <= y < |c|
      ensures Crop(c).value[y] == c[y]
    {
      assert |c[y]| == w;
      assert Crop(c).value[y] == c[y][..w];
    }
    assert Crop(c).value == c;
  }

  // ---------------------------------------------------------------------
  // imageDataToMatrix
  // ---------------------------------------------------------------------

  /** Where row y starts in the flat data: 4·w·y, built up a row at a time. */
  function Offset(width: nat, y: nat): nat
  {
    if y == 0 then 0 else Offset(width, y - 1) + 4 * width
  }

  /** The offset of pixel (y, x) is the source's (y·w + x)·4, and the whole data is 4·w·h long. */
  lemma {:induction false} OffsetIsProduct(width: nat, y: nat, x: nat)
    ensures Offset(width, y) + 4 * x == (y * width + x) * 4
    ensures Offset(width, y) == 4 * width * y
  {
    if y > 0 {
      OffsetIsProduct(width, y - 1, x);
      assert (y - 1) * width + width == y * width;
      assert 4 * width * (y - 1) + 4 * width == 4 * width * y;
    }
  }

  /** Rows below `height` end inside data of 4·w·h components. */
  lemma {:induction false} OffsetBound(width: nat, y: nat, height: nat)
    requires y <= height
    ensures Offset(width, y) <= Offset(width, height)
    decreases height
  {
    if y < height {
      OffsetBound(width, y, height - 1);
    }
  }

  /** Data of 4·w·h components holds the pixel of each (y, x) with y < h and x < w. */
  lemma PixelInData(width: nat, height: nat, y: nat, x: nat)
    requires y < height && x < width
    ensures Offset(width, y) + 4 * x + 4 <= Offset(width, height)
  {
    OffsetBound(width, y + 1, height);
  }

  /** The pixel at row y, column x: components (y·w + x)·4 … (y·w + x)·4 + 3. */
  function PixelOf(data: seq<byte>, width: nat, height: nat, y: nat, x: nat): Pixel
    requires |data| >= Offset(width, height) && y < height && x < width
  {
    PixelInData(width, height, y, x);
    var i := Offset(width, y) + 4 * x;
    Pixel(data[i], data[i + 1], data[i + 2], data[i + 3])
  }

  /** `m` holds, at each (y, x), the pixel of `data` there. */
  predicate IsMatrixOf(m: seq<seq<Pixel>>, data: seq<byte>, width: nat, height: nat)
  {
    |data| >= Offset(width, height) && IsRect(m, height, width) &&
    forall y, x :: 0 <= y < height && 0 <= x < width ==> m[y][x] == PixelOf(data, width, height, y, x)
  }

  /** Pixel (y, x) is components (y·w + x)·4 … (y·w + x)·4 + 3 of the data. */
  lemma PixelComponents(data: seq<byte>, width: nat, height: nat, y: nat, x: nat)
    requires |data| >= 4 * width * height && y < height && x < width
    ensures Offset(width, height) == 4 * width * height
    ensures (y * width + x) * 4 + 3 < |data|
    ensures PixelOf(data, width, height, y, x) ==
      Pixel(data[(y * width + x) * 4], data[(y * width + x) * 4 + 1], data[(y * width + x) * 4 + 2], data[(y * width + x) * 4 + 3])
  {
    OffsetIsProduct(width, height, 0);
    PixelInData(width, height, y, x);
    OffsetIsProduct(width, y, x);
  }

  /** The inner loop of `imageDataToMatrix`: one row of pixels. */
  method MatrixRow(data: seq<byte>, width: nat, height: nat, y: nat) returns (row: seq<Pixel>)
    requires |data| >= Offset(width, height) && y < height
    ensures |row| == width
    ensures forall x :: 0 <= x < width ==> row[x] == PixelOf(data, width, height, y, x)
  {
    row := [];
    for x := 0 to width
      invariant |row| == x
      invariant forall x' :: 0 <= x' < x ==> row[x'] == PixelOf(data, width, height, y, x')
    {
      row := row + [PixelOf(data, width, height, y, x)];
    }
  }

  /** `imageDataToMatrix`: `height` rows of `width` pixels, read off the flat RGBA data. */
  method ImageDataToMatrix(data: seq<byte>, width: nat, height: nat) returns (matrix: seq<seq<Pixel>>)
    requires |data| >= 4 * width * height
    ensures IsMatrixOf(matrix, data, width, height)
  {
    OffsetIsProduct(width, height, 0);
    matrix := [];
    for y := 0 to height
      invariant IsRect(matrix, y, width)
      invariant forall y', x :: 0 <= y' < y && 0 <= x < width ==> matrix[y'][x] == PixelOf(data, width, height, y', x)
    {
      var row := MatrixRow(data, width, height, y);
      matrix := matrix + [row];
    }
  }

  // ---------------------------------------------------------------------
  // matrixToImageData
  // ---------------------------------------------------------------------

  /** A `Uint8ClampedArray` store of an integer: clamped into 0..255. */
  function Clamp(v: int): (r: byte)
    ensures 0 <= v <= 255 ==> r == v
    ensures v < 0 ==> r == 0
    ensures v > 255 ==> r == 255
  {
    if v < 0 then 0 else if v > 255 then 255 else v
  }

  /** The four stored components of a pixel, in RGBA order. */
  function Components(p: Pixel): seq<byte>
  {
    [Clamp(p.r), Clamp(p.g), Clamp(p.b), Clamp(p.a)]
  }

  /** The stored components of the first `width` pixels of a row. */
  function RowData(row: seq<Pixel>, width: nat): (d: seq<byte>)
    requires |row| >= width
    ensures |d| == 4 * width
  {
    if width == 0 then [] else RowData(row, width - 1) + Components(row[width - 1])
  }

  /** The image data the loops of `matrixToImageData` fill in: one row after another. */
  function ImageDataOf(m: seq<seq<Pixel>>, width: nat, height: nat): (d: seq<byte>)
    requires Covers(m, height, width)
    ensures |d| == Offset(width, height)
  {
    if height == 0 then [] else ImageDataOf(m, width, height - 1) + RowData(m[height - 1], width)
  }

  /** Writes the components of one pixel at `i`, after the data stored so far; everything else stays. */
  method StorePixel(a: array<byte>, i: nat, p: Pixel, ghost stored: seq<byte>)
    requires i + 4 <= a.Length && a[..i] == stored
    modifies a
    ensures a[..] == old(a[..i]) + Components(p) + old(a[i + 4..])
    ensures a[..i + 4] == stored + Components(p)
  {
    a[i] := Clamp(p.r);
    a[i + 1] := Clamp(p.g);
    a[i + 2] := Clamp(p.b);
    a[i + 3] := Clamp(p.a);
    assert a[..] == old(a[..i]) + Components(p) + old(a[i + 4..]);
    assert a[..i + 4] == a[..][..i + 4];
  }

  /** The inner loop of `matrixToImageData`: one row; false where a cell is missing and reading it throws. */
  method StoreRow(m: seq<seq<Pixel>>, width: nat, y: nat, a: array<byte>) returns (ok: bool)
    requires Covers(m, y, width) && Offset(width, y + 1) <= a.Length
    requires a[..Offset(width, y)] == ImageDataOf(m, width, y)
    modifies a
    ensures ok <==> y < |m| && |m[y]| >= width
    ensures ok ==> a[..Offset(width, y + 1)] == ImageDataOf(m, width, y + 1)
  {
    if y >= |m| {
      return false;
    }
    ghost var base := ImageDataOf(m, width, y);
    var row, start := m[y], Offset(width, y);
    assert start + 4 * width <= a.Length;
    for x := 0 to width
      invariant x <= |row|
      invariant a[..start + 4 * x] == base + RowData(row, x)
    {
      if x >= |row| {
        return false;
      }
      StoreCell(row, width, x, a, start, base);
    }
    RowDone(m, width, y);
    return true;
  }

  /** One step of the inner loop: pixel x of the row goes after the first x. */
  method StoreCell(row: seq<Pixel>, width: nat, x: nat, a: array<byte>, start: nat, ghost base: seq<byte>)
    requires x < width && x < |row| && start + 4 * width <= a.Length
    requires a[..start + 4 * x] == base + RowData(row, x)
    modifies a
    ensures a[..start + 4 * (x + 1)] == base + RowData(row, x + 1)
  {
    StorePixel(a, start + 4 * x, row[x], base + RowData(row, x));
    AppendPixel(base, row, x);
  }

  /** Storing pixel x after the first x of a row gives the first x + 1. */
  lemma AppendPixel(base: seq<byte>, row: seq<Pixel>, x: nat)
    requires x < |row|
    ensures base + RowData(row, x) + Components(row[x]) == base + RowData(row, x + 1)
  {
    assert RowData(row, x + 1) == RowData(row, x) + Components(row[x]);
  }

  /** A whole row stored after the rows above it gives the data up to the next row. */
  lemma RowDone(m: seq<seq<Pixel>>, width: nat, y: nat)
    requires Covers(m, y, width) && y < |m| && |m[y]| >= width
    ensures Offset(width, y + 1) == Offset(width, y) + 4 * width
    ensures ImageDataOf(m, width, y + 1) == ImageDataOf(m, width, y) + RowData(m[y], width)
  {
  }

  /**
   * `matrixToImageData(matrix, width, height, ctx)` of `client/esteganography.js`:
   * a fresh 4·w·h array holding each cell's components; None when a
   * dimension is 0 (`createImageData` throws) or a cell is missing.
   */
  method MatrixToImageData(m: seq<seq<Pixel>>, width: nat, height: nat) returns (r: Option<seq<byte>>)
    ensures r.Some? <==> width > 0 && height > 0 && Covers(m, height, width)
    ensures r.Some? ==> r.value == ImageDataOf(m, width, height)
  {
    if width == 0 || height == 0 {
      return None;
    }
    OffsetIsProduct(width, height, 0);
    var a := new byte[4 * width * height](_ => 0);
    for y := 0 to height
      invariant Covers(m, y, width)
      invariant Offset(width, y) <= a.Length
      invariant a[..Offset(width, y)] == ImageDataOf(m, width, y)
    {
      OffsetBound(width, y + 1, height);
      var ok := StoreRow(m, width, y, a);
      if !ok {
        return None;
      }
    }
    assert a[..] == a[..Offset(width, height)];
    return Some(a[..]);
  }

  /**
   * `matrixToImageData(matrix, ctx)` of `client-html/esteganography.js`:
   * the dimensions are those of the matrix, `matrix[0].length` throwing
   * on an empty one.
   */
  method HtmlMatrixToImageData(m: seq<seq<Pixel>>) returns (r: Option<seq<byte>>)
    ensures r.Some? <==> |m| > 0 && |m[0]| > 0 && Covers(m, |m|, |m[0]|)
    ensures r.Some? ==> r.value == ImageDataOf(m, |m[0]|, |m|)
  {
    if |m| == 0 {
      return None;
    }
    r := MatrixToImageData(m, |m[0]|, |m|);
  }

  lemma {:induction false} RowDataAt(row: seq<Pixel>, width: nat, x: nat, c: nat)
    requires |row| >= width && x < width && c < 4
    ensures RowData(row, width)[4 * x + c] == Components(row[x])[c]
  {
    if x < width - 1 {
      RowDataAt(row, width - 1, x, c);
    }
  }

  lemma {:induction false} ImageDataOffsetAt(m: seq<seq<Pixel>>, width: nat, height: nat, y: nat, x: nat, c: nat)
    requires Covers(m, height, width) && y < height && x < width && c < 4
    ensures Offset(width, y) + 4 * x + c < Offset(width, height)
    ensures ImageDataOf(m, width, height)[Offset(width, y) + 4 * x + c] == Components(m[y][x])[c]
  {
    PixelInData(width, height, y, x);
    if y < height - 1 {
      ImageDataOffsetAt(m, width, height - 1, y, x, c);
      PixelInData(width, height - 1, y, x);
    } else {
      RowDataAt(m[y], width, x, c);
    }
  }

  /** Component c of cell (y, x) lands at (y·w + x)·4 + c of the image data. */
  lemma ImageDataAt(m: seq<seq<Pixel>>, width: nat, height: nat, y: nat, x: nat, c: nat)
    requires Covers(m, height, width) && y < height && x < width && c < 4
    ensures |ImageDataOf(m, width, height)| == 4 * width * height
    ensures (y * width + x) * 4 + c < 4 * width * height
    ensures ImageDataOf(m, width, height)[(y * width + x) * 4 + c] == Components(m[y][x])[c]
  {
    ImageDataOffsetAt(m, width, height, y, x, c);
    OffsetIsProduct(width, y, x);
    OffsetIsProduct(width, height, 0);
  }

  /** Row y of a matrix read from the data: its w pixels are the ones at (y, 0) … (y, w − 1). */
  predicate RowIsData(row: seq<Pixel>, data: seq<byte>, width: nat, height: nat, y: nat)
  {
    |data| >= Offset(width, height) && y < height && |row| == width &&
    forall x :: 0 <= x < width ==> row[x] == PixelOf(data, width, height, y, x)
  }

  /** The row the inner loop writes back is the slice of data it was read from. */
  lemma {:induction false} RowDataOfData(data: seq<byte>, row: seq<Pixel>, width: nat, height: nat, y: nat, x: nat)
    requires RowIsData(row, data, width, height, y) && x <= width
    ensures Offset(width, y) + 4 * x <= |data|
    ensures RowData(row, x) == data[Offset(width, y) .. Offset(width, y) + 4 * x]
  {
    RowFits(width, height, y, x);
    if x > 0 {
      RowDataOfData(data, row, width, height, y, x - 1);
      RowDataStep(data, row, width, height, y, x);
    }
  }

  /** The first x pixels of row y lie inside data of 4·w·h components. */
  lemma RowFits(width: nat, height: nat, y: nat, x: nat)
    requires y < height && x <= width
    ensures Offset(width, y) + 4 * x <= Offset(width, height)
  {
    OffsetBound(width, y + 1, height);
  }

  /** Pixel x − 1 of row y, stored after the first x − 1, gives the data of the first x. */
  lemma RowDataStep(data: seq<byte>, row: seq<Pixel>, width: nat, height: nat, y: nat, x: nat)
    requires RowIsData(row, data, width, height, y) && 0 < x <= width
    requires Offset(width, y) + 4 * x <= |data|
    requires RowData(row, x - 1) == data[Offset(width, y) .. Offset(width, y) + 4 * (x - 1)]
    ensures RowData(row, x) == data[Offset(width, y) .. Offset(width, y) + 4 * x]
  {
    var o := Offset(width, y);
    var i := o + 4 * (x - 1);
    assert row[x - 1] == PixelOf(data, width, height, y, x - 1);
    StoredPixel(data, width, height, y, x - 1, i);
    assert RowData(row, x) == RowData(row, x - 1) + Components(row[x - 1]);
    SliceJoin(data, o, i, i + 4);
  }

  /** A pixel read from the data stores back as the four components it was read from. */
  lemma StoredPixel(data: seq<byte>, width: nat, height: nat, y: nat, x: nat, i: nat)
    requires |data| >= Offset(width, height) && y < height && x < width
    requires i == Offset(width, y) + 4 * x
    ensures i + 4 <= |data|
    ensures Components(PixelOf(data, width, height, y, x)) == data[i .. i + 4]
  {
    PixelInData(width, height, y, x);
  }

  /** Adjacent slices join. */
  lemma SliceJoin(data: seq<byte>, a: nat, b: nat, c: nat)
    requires a <= b <= c <= |data|
    ensures data[a .. b] + data[b .. c] == data[a .. c]
  {
  }

  lemma PrefixJoin(data: seq<byte>, front: seq<byte>, back: seq<byte>, i: nat)
    requires i + |back| <= |data|
    requires front == data[..i] && back == data[i..i + |back|]
    ensures front + back == data[..i + |back|]
  {
  }

  /** Each of the first `height` rows, written back, is its slice of the data. */
  predicate RowsMatch(m: seq<seq<Pixel>>, data: seq<byte>, width: nat, height: nat)
  {
    |data| == Offset(width, height) && Covers(m, height, width) &&
    forall y {:trigger RowData(m[y], width)} :: 0 <= y < height ==>
      Offset(width, y) + 4 * width <= |data| && RowData(m[y], width) == data[Offset(width, y) .. Offset(width, y) + 4 * width]
  }

  lemma AllRowsMatch(data: seq<byte>, m: seq<seq<Pixel>>, width: nat, height: nat)
    requires |data| == Offset(width, height) && IsMatrixOf(m, data, width, height)
    ensures RowsMatch(m, data, width, height)
  {
    forall y | 0 <= y < height
      ensures Offset(width, y) + 4 * width <= |data| && RowData(m[y], width) == data[Offset(width, y) .. Offset(width, y) + 4 * width]
    {
      assert RowIsData(m[y], data, width, height, y);
      RowDataOfData(data, m[y], width, height, y, width);
    }
  }

  lemma ImageDataStep(data: seq<byte>, m: seq<seq<Pixel>>, width: nat, height: nat, y: nat)
    requires RowsMatch(m, data, width, height)
    requires 0 < y <= height
    requires Offset(width, y - 1) <= |data| && ImageDataOf(m, width, y - 1) == data[..Offset(width, y - 1)]
    ensures Offset(width, y) <= |data|
    ensures ImageDataOf(m, width, y) == data[..Offset(width, y)]
  {
    var o := Offset(width, y - 1);
    var row := RowData(m[y - 1], width);
    assert row == data[o .. o + 4 * width];
    PrefixJoin(data, ImageDataOf(m, width, y - 1), row, o);
  }

  /** The rows written back are the data they were read from. */
  lemma {:induction false} ImageDataOfData(data: seq<byte>, m: seq<seq<Pixel>>, width: nat, height: nat, y: nat)
    requires RowsMatch(m, data, width, height)
    requires y <= height
    ensures Offset(width, y) <= |data|
    ensures ImageDataOf(m, width, y) == data[..Offset(width, y)]
    decreases y
  {
    OffsetBound(width, y, height);
    if y > 0 {
      ImageDataOfData(data, m, width, height, y - 1);
      ImageDataStep(data, m, width, height, y);
    }
  }

  /**
   * `matrixToImageData(imageDataToMatrix(d, w, h), w, h)` gives `d` back
   * when `d` holds exactly the 4·w·h components.
   */
  lemma ImageDataRoundTrip(data: seq<byte>, m: seq<seq<Pixel>>, width: nat, height: nat)
    requires |data| == 4 * width * height && IsMatrixOf(m, data, width, height)
    ensures Covers(m, height, width)
    ensures ImageDataOf(m, width, height) == data
  {
    OffsetIsProduct(width, height, 0);
    AllRowsMatch(data, m, width, height);
    ImageDataOfData(data, m, width, height, height);
  }

  // ---------------------------------------------------------------------
  // splitRGBChannels / mergeRGBChannels
  // ---------------------------------------------------------------------

  /** The red (0), green (1) or blue (2) component of a pixel, as a number. */
  function Channel(p: Pixel, c: nat): real
  {
    if c == 0 then p.r as real else if c == 1 then p.g as real else p.b as real
  }

  /** One channel of a block, in the block's own shape. */
  function ChannelOf(block: seq<seq<Pixel>>, c: nat): (ch: seq<seq<real>>)
    ensures |ch| == |block| && forall i :: 0 <= i < |block| ==> |ch[i]| == |block[i]|
  {
    seq(|block|, i requires 0 <= i < |block| => seq(|block[i]|, j requires 0 <= j < |block[i]| => Channel(block[i][j], c)))
  }

  /** The inner loop of `splitRGBChannels`. */
  method SplitRow(row: seq<Pixel>) returns (r: seq<real>, g: seq<real>, b: seq<real>)
    ensures |r| == |g| == |b| == |row|
    ensures forall j :: 0 <= j < |row| ==> r[j] == row[j].r as real && g[j] == row[j].g as real && b[j] == row[j].b as real
  {
    r, g, b := [], [], [];
    for j := 0 to |row|
      invariant |r| == |g| == |b| == j
      invariant forall j' :: 0 <= j' < j ==> r[j'] == row[j'].r as real && g[j'] == row[j'].g as real && b[j'] == row[j'].b as real
    {
      r, g, b := r + [row[j].r as real], g + [row[j].g as real], b + [row[j].b as real];
    }
  }

  /** `splitRGBChannels`: the red, green and blue channels of a block. */
  method SplitRGB(block: seq<seq<Pixel>>) returns (r: seq<seq<real>>, g: seq<seq<real>>, b: seq<seq<real>>)
    ensures r == ChannelOf(block, 0) && g == ChannelOf(block, 1) && b == ChannelOf(block, 2)
  {
    r, g, b := [], [], [];
    for i := 0 to |block|
      invariant |r| == |g| == |b| == i
      invariant forall i' :: 0 <= i' < i ==> r[i'] == ChannelOf(block, 0)[i'] && g[i'] == ChannelOf(block, 1)[i'] && b[i'] == ChannelOf(block, 2)[i']
    {
      var ri, gi, bi := SplitRow(block[i]);
      r, g, b := r + [ri], g + [gi], b + [bi];
    }
  }

  /** `Math.round`: the nearest integer, halves rounded up. */
  function Round(x: real): int
  {
    (x + 0.5).Floor
  }

  /** `Math.round(Math.max(0, Math.min(255, x)))`. */
  function ToChannel(x: real): (v: int)
    ensures 0 <= v <= 255
    ensures x <= 0.0 ==> v == 0
    ensures x >= 255.0 ==> v == 255
    ensures -1.0 / 2.0 <= (if x < 0.0 then 0.0 else if x > 255.0 then 255.0 else x) - v as real < 1.0 / 2.0
  {
    var c := if x < 0.0 then 0.0 else if x > 255.0 then 255.0 else x;
    Round(c)
  }

  /** An integer channel value in range is stored unchanged. */
  lemma ToChannelOfInt(n: int)
    requires 0 <= n <= 255
    ensures ToChannel(n as real) == n
  {
    assert (n as real + 0.5).Floor == n;
  }

  /** Cells (i, j) of `r` exist in the other channels and in the original. */
  predicate MergeShape(r: seq<seq<real>>, g: seq<seq<real>>, b: seq<seq<real>>, original: seq<seq<Pixel>>)
  {
    |g| >= |r| && |b| >= |r| && |original| >= |r| &&
    forall i :: 0 <= i < |r| ==> |g[i]| >= |r[i]| && |b[i]| >= |r[i]| && |original[i]| >= |r[i]|
  }

  /** The block `mergeRGBChannels` builds, in the shape of the red channel. */
  function MergedOf(r: seq<seq<real>>, g: seq<seq<real>>, b: seq<seq<real>>, original: seq<seq<Pixel>>): (m: seq<seq<Pixel>>)
    requires MergeShape(r, g, b, original)
    ensures |m| == |r| && forall i :: 0 <= i < |r| ==> |m[i]| == |r[i]|
  {
    seq(|r|, i requires 0 <= i < |r| => seq(|r[i]|, j requires 0 <= j < |r[i]| =>
      Pixel(ToChannel(r[i][j]), ToChannel(g[i][j]), ToChannel(b[i][j]), original[i][j].a)))
  }

  /** The inner loop of `mergeRGBChannels`. */
  method MergeRow(r: seq<real>, g: seq<real>, b: seq<real>, original: seq<Pixel>) returns (row: seq<Pixel>)
    requires |g| >= |r| && |b| >= |r| && |original| >= |r|
    ensures |row| == |r|
    ensures forall j :: 0 <= j < |r| ==> row[j] == Pixel(ToChannel(r[j]), ToChannel(g[j]), ToChannel(b[j]), original[j].a)
  {
    row := [];
    for j := 0 to |r|
      invariant |row| == j
      invariant forall j' :: 0 <= j' < j ==> row[j'] == Pixel(ToChannel(r[j']), ToChannel(g[j']), ToChannel(b[j']), original[j'].a)
    {
      row := row + [Pixel(ToChannel(r[j]), ToChannel(g[j]), ToChannel(b[j]), original[j].a)];
    }
  }

  /** `mergeRGBChannels`: channels rounded and clamped into pixels, alpha kept from the original block. */
  method MergeRGB(r: seq<seq<real>>, g: seq<seq<real>>, b: seq<seq<real>>, original: seq<seq<Pixel>>) returns (block: seq<seq<Pixel>>)
    requires MergeShape(r, g, b, original)
    ensures block == MergedOf(r, g, b, original)
  {
    block := [];
    for i := 0 to |r|
      invariant |block| == i
      invariant forall i' :: 0 <= i' < i ==> block[i'] == MergedOf(r, g, b, original)[i']
    {
      var row := MergeRow(r[i], g[i], b[i], original[i]);
      block := block + [row];
    }
  }

  /** Every colour component is a byte value. */
  predicate InRange(block: seq<seq<Pixel>>)
  {
    forall i, j :: 0 <= i < |block| && 0 <= j < |block[i]| ==>
      0 <= block[i][j].r <= 255 && 0 <= block[i][j].g <= 255 && 0 <= block[i][j].b <= 255
  }

  /** A merged block has byte-valued colours and the original's alpha. */
  lemma MergedRange(r: seq<seq<real>>, g: seq<seq<real>>, b: seq<seq<real>>, original: seq<seq<Pixel>>)
    requires MergeShape(r, g, b, original)
    ensures InRange(MergedOf(r, g, b, original))
    ensures forall i, j :: 0 <= i < |r| && 0 <= j < |r[i]| ==> MergedOf(r, g, b, original)[i][j].a == original[i][j].a
  {
  }

  /** Merging the split channels of a block of byte-valued colours gives the block back. */
  lemma MergeSplit(block: seq<seq<Pixel>>)
    requires InRange(block)
    ensures MergeShape(ChannelOf(block, 0), ChannelOf(block, 1), ChannelOf(block, 2), block)
    ensures MergedOf(ChannelOf(block, 0), ChannelOf(block, 1), ChannelOf(block, 2), block) == block
  {
    var m := MergedOf(ChannelOf(block, 0), ChannelOf(block, 1), ChannelOf(block, 2), block);
    forall i, j | 0 <= i < |block| && 0 <= j < |block[i]|
      ensures m[i][j] == block[i][j]
    {
      ToChannelOfInt(block[i][j].r);
      ToChannelOfInt(block[i][j].g);
      ToChannelOfInt(block[i][j].b);
    }
    assert forall i :: 0 <= i < |block| ==> m[i] == block[i];
  }
}
