/**
 * The 8×8 block layout of `client/esteganography.js`: an image padded
 * with zeros to whole blocks and cut into blocks in row-major order by
 * `divideIntoBlocks`, and put back together and trimmed to its original
 * size by `reconstructImageFromBlocks`.  Cells are of any type `T`;
 * `zero` is the `0` the code pads with.
 */
module Blocks {
  import opened Js
  import opened Pixels

  /** `Math.ceil(n / 8)`: how many blocks cover n cells. */
  function CeilBlocks(n: nat): (k: nat)
    ensures n <= k * 8 < n + 8
  {
    (n + 7) / 8
  }

  /** The index of the first block of block row `bi`: bi·bw, built up a row at a time. */
  function FirstOfRow(bw: nat, bi: nat): nat
  {
    if bi == 0 then 0 else FirstOfRow(bw, bi - 1) + bw
  }

  lemma {:induction false} FirstOfRowIsProduct(bw: nat, bi: nat)
    ensures FirstOfRow(bw, bi) == bi * bw
  {
    if bi > 0 {
      FirstOfRowIsProduct(bw, bi - 1);
      assert (bi - 1) * bw + bw == bi * bw;
    }
  }

  /** Block (bi, bj) of an image of bh block rows of bw blocks comes before block row bh. */
  lemma {:induction false} BlockIndexBound(bw: nat, bi: nat, bj: nat, bh: nat)
    requires bi < bh && bj < bw
    ensures FirstOfRow(bw, bi) + bj < FirstOfRow(bw, bh)
    decreases bh
  {
    if bi < bh - 1 {
      BlockIndexBound(bw, bi, bj, bh - 1);
    }
  }

  // ---------------------------------------------------------------------
  // divideIntoBlocks
  // ---------------------------------------------------------------------

  /** The image `divideIntoBlocks` handles: rows at least as long as the first. */
  predicate IsImage<T>(image: seq<seq<T>>)
  {
    |image| > 0 && Covers(image, |image|, |image[0]|)
  }

  /** `paddedImage`: the image with zeros to the right and below, up to whole blocks. */
  function Padded<T>(image: seq<seq<T>>, zero: T): (p: seq<seq<T>>)
    requires IsImage(image)
    ensures IsRect(p, CeilBlocks(|image|) * 8, CeilBlocks(|image[0]|) * 8)
  {
    var h, w := |image|, |image[0]|;
    seq(CeilBlocks(h) * 8, i requires 0 <= i < CeilBlocks(h) * 8 =>
      seq(CeilBlocks(w) * 8, j requires 0 <= j < CeilBlocks(w) * 8 =>
        if i < h && j < w then image[i][j] else zero))
  }

  /** The padding keeps every cell of the image and is zero everywhere else. */
  lemma PaddedCells<T>(image: seq<seq<T>>, zero: T, i: nat, j: nat)
    requires IsImage(image) && i < CeilBlocks(|image|) * 8 && j < CeilBlocks(|image[0]|) * 8
    ensures i < |image| && j < |image[0]| ==> Padded(image, zero)[i][j] == image[i][j]
    ensures i >= |image| || j >= |image[0]| ==> Padded(image, zero)[i][j] == zero
  {
  }

  /** There are enough rows and columns for block (bi, bj). */
  predicate HasBlock<T>(p: seq<seq<T>>, bi: nat, bj: nat)
  {
    8 * bi + 8 <= |p| && forall i :: 8 * bi <= i < 8 * bi + 8 ==> 8 * bj + 8 <= |p[i]|
  }

  /** Block (bi, bj): eight rows of eight cells, from row 8·bi and column 8·bj. */
  function BlockOf<T>(p: seq<seq<T>>, bi: nat, bj: nat): (b: seq<seq<T>>)
    requires HasBlock(p, bi, bj)
    ensures IsRect(b, 8, 8)
  {
    seq(8, x requires 0 <= x < 8 => p[8 * bi + x][8 * bj .. 8 * bj + 8])
  }

  /** Cell (i, j) of block (bi, bj) is cell (8·bi + i, 8·bj + j). */
  lemma BlockOfCell<T>(p: seq<seq<T>>, bi: nat, bj: nat, i: nat, j: nat, y: nat, x: nat)
    requires HasBlock(p, bi, bj) && i < 8 && j < 8
    requires y == 8 * bi + i && x == 8 * bj + j
    ensures y < |p| && x < |p[y]|
    ensures BlockOf(p, bi, bj)[i][j] == p[y][x]
  {
  }

  /** The first n blocks of block row bi, left to right. */
  function RowBlocks<T>(p: seq<seq<T>>, bi: nat, n: nat): (r: seq<seq<seq<T>>>)
    requires forall bj :: 0 <= bj < n ==> HasBlock(p, bi, bj)
    ensures |r| == n
  {
    if n == 0 then [] else RowBlocks(p, bi, n - 1) + [BlockOf(p, bi, n - 1)]
  }

  /** The blocks of the first `rows` block rows, in row-major order. */
  function BlocksOf<T>(p: seq<seq<T>>, bw: nat, rows: nat): (r: seq<seq<seq<T>>>)
    requires |p| >= 8 * rows && forall i :: 0 <= i < |p| ==> |p[i]| >= 8 * bw
    ensures |r| == FirstOfRow(bw, rows)
  {
    if rows == 0 then []
    else
      var last := rows - 1;
      assert forall bj :: 0 <= bj < bw ==> HasBlock(p, last, bj);
      BlocksOf(p, bw, last) + RowBlocks(p, last, bw)
  }

  /** The inner loop of the block loops: `block.push(paddedImage[i + x].slice(j, j + 8))`. */
  method CutBlock<T>(p: seq<seq<T>>, bi: nat, bj: nat) returns (block: seq<seq<T>>)
    requires HasBlock(p, bi, bj)
    ensures block == BlockOf(p, bi, bj)
  {
    block := [];
    for x := 0 to 8
      invariant |block| == x
      invariant forall x' :: 0 <= x' < x ==> block[x'] == p[8 * bi + x'][8 * bj .. 8 * bj + 8]
    {
      block := block + [p[8 * bi + x][8 * bj .. 8 * bj + 8]];
    }
  }

  /** One block row of `divideIntoBlocks`' loop, pushed after the blocks so far. */
  method CutBlockRow<T>(p: seq<seq<T>>, bw: nat, bi: nat, blocks: seq<seq<seq<T>>>) returns (r: seq<seq<seq<T>>>)
    requires forall bj :: 0 <= bj < bw ==> HasBlock(p, bi, bj)
    ensures r == blocks + RowBlocks(p, bi, bw)
  {
    r := blocks;
    for bj := 0 to bw
      invariant r == blocks + RowBlocks(p, bi, bj)
    {
      var block := CutBlock(p, bi, bj);
      r := r + [block];
    }
  }

  /**
   * `divideIntoBlocks`: the padded image's blocks in row-major order;
   * None where `image[0]` is undefined and `.length` throws.
   */
  method DivideIntoBlocks<T>(image: seq<seq<T>>, zero: T) returns (r: Option<seq<seq<seq<T>>>>)
    requires |image| > 0 ==> IsImage(image)
    ensures r.Some? <==> |image| > 0
    ensures r.Some? ==> r.value == BlocksOf(Padded(image, zero), CeilBlocks(|image[0]|), CeilBlocks(|image|))
  {
    if |image| == 0 {
      return None;
    }
    var bh, bw := CeilBlocks(|image|), CeilBlocks(|image[0]|);
    var padded := Padded(image, zero);
    var blocks := [];
    for bi := 0 to bh
      invariant blocks == BlocksOf(padded, bw, bi)
    {
      assert forall bj :: 0 <= bj < bw ==> HasBlock(padded, bi, bj);
      blocks := CutBlockRow(padded, bw, bi, blocks);
    }
    return Some(blocks);
  }

  /** Block (bi, bj) of `BlocksOf` sits at index FirstOfRow(bw, bi) + bj. */
  lemma {:induction false} RowBlocksAt<T>(p: seq<seq<T>>, bi: nat, n: nat, bj: nat)
    requires forall j :: 0 <= j < n ==> HasBlock(p, bi, j)
    requires bj < n
    ensures RowBlocks(p, bi, n)[bj] == BlockOf(p, bi, bj)
  {
    if bj < n - 1 {
      RowBlocksAt(p, bi, n - 1, bj);
    }
  }

  lemma {:induction false} BlocksOfAt<T>(p: seq<seq<T>>, bw: nat, rows: nat, bi: nat, bj: nat)
    requires |p| >= 8 * rows && forall i :: 0 <= i < |p| ==> |p[i]| >= 8 * bw
    requires bi < rows && bj < bw
    ensures FirstOfRow(bw, bi) + bj < FirstOfRow(bw, rows)
    ensures HasBlock(p, bi, bj)
    ensures BlocksOf(p, bw, rows)[FirstOfRow(bw, bi) + bj] == BlockOf(p, bi, bj)
  {
    BlockIndexBound(bw, bi, bj, rows);
    if bi < rows - 1 {
      BlocksOfAt(p, bw, rows - 1, bi, bj);
    } else {
      var last := rows - 1;
      assert forall j :: 0 <= j < bw ==> HasBlock(p, last, j);
      RowBlocksAt(p, last, bw, bj);
    }
  }

  /**
   * `divideIntoBlocks` yields ceil(h/8)·ceil(w/8) blocks, and cell (x, y)
   * of block (i/8)·(pw/8) + j/8 is cell (i + x, j + y) of the padded image.
   */
  lemma DivisionLayout<T>(image: seq<seq<T>>, zero: T, i: nat, j: nat, x: nat, y: nat)
    requires IsImage(image)
    requires i % 8 == 0 && j % 8 == 0 && i < CeilBlocks(|image|) * 8 && j < CeilBlocks(|image[0]|) * 8
    requires x < 8 && y < 8
    ensures AllBlocks8(BlocksOf(Padded(image, zero), CeilBlocks(|image[0]|), CeilBlocks(|image|)))
    ensures |BlocksOf(Padded(image, zero), CeilBlocks(|image[0]|), CeilBlocks(|image|))| == CeilBlocks(|image|) * CeilBlocks(|image[0]|)
    ensures (i / 8) * CeilBlocks(|image[0]|) + j / 8 < CeilBlocks(|image|) * CeilBlocks(|image[0]|)
    ensures i + x < CeilBlocks(|image|) * 8 && j + y < CeilBlocks(|image[0]|) * 8
    ensures BlocksOf(Padded(image, zero), CeilBlocks(|image[0]|), CeilBlocks(|image|))[(i / 8) * CeilBlocks(|image[0]|) + j / 8][x][y]
      == Padded(image, zero)[i + x][j + y]
  {
    var bh, bw := CeilBlocks(|image|), CeilBlocks(|image[0]|);
    var p := Padded(image, zero);
    var bi, bj := i / 8, j / 8;
    BlockStart(i, bh);
    BlockStart(j, bw);
    AllBlocksOf8(p, bw, bh);
    BlockAtCell(p, bw, bh, bi, bj, x, y);
    ProductIndex(bw, bh, bi, bj);
  }

  /** Block bj of block row bi is block bi·bw + bj of bh·bw. */
  lemma ProductIndex(bw: nat, bh: nat, bi: nat, bj: nat)
    requires bi < bh && bj < bw
    ensures FirstOfRow(bw, bi) + bj == bi * bw + bj < bh * bw == FirstOfRow(bw, bh)
  {
    FirstOfRowIsProduct(bw, bi);
    FirstOfRowIsProduct(bw, bh);
    assert bi * bw + bw <= bh * bw by {
      assert (bi + 1) * bw <= bh * bw;
    }
  }

  /** A multiple of 8 below 8·n starts one of the n blocks. */
  lemma BlockStart(i: nat, n: nat)
    requires i % 8 == 0 && i < n * 8
    ensures 8 * (i / 8) == i && i / 8 < n && i + 8 <= n * 8
  {
  }

  /** Cell (x, y) of block (bi, bj) is cell (8·bi + x, 8·bj + y). */
  lemma BlockAtCell<T>(p: seq<seq<T>>, bw: nat, rows: nat, bi: nat, bj: nat, x: nat, y: nat)
    requires |p| >= 8 * rows && forall i :: 0 <= i < |p| ==> |p[i]| >= 8 * bw
    requires bi < rows && bj < bw && x < 8 && y < 8
    ensures FirstOfRow(bw, bi) + bj < FirstOfRow(bw, rows)
    ensures AllBlocks8(BlocksOf(p, bw, rows))
    ensures BlocksOf(p, bw, rows)[FirstOfRow(bw, bi) + bj][x][y] == p[8 * bi + x][8 * bj + y]
  {
    AllBlocksOf8(p, bw, rows);
    BlocksOfAt(p, bw, rows, bi, bj);
  }

  // ---------------------------------------------------------------------
  // reconstructImageFromBlocks
  // ---------------------------------------------------------------------

  /** Every block is eight rows of eight cells. */
  predicate AllBlocks8<T>(blocks: seq<seq<seq<T>>>)
  {
    forall k :: 0 <= k < |blocks| ==> IsRect(blocks[k], 8, 8)
  }

  /**
   * The cell the reconstruction holds at (y, x) for blocks laid out `bw`
   * to a block row: cell (y % 8, x % 8) of block (y / 8, x / 8); the
   * zero it was filled with where there is no such block.
   */
  function CellOf<T>(blocks: seq<seq<seq<T>>>, bw: nat, y: nat, x: nat, zero: T): T
    requires AllBlocks8(blocks)
  {
    var k := FirstOfRow(bw, y / 8) + x / 8;
    if k < |blocks| then blocks[k][y % 8][x % 8] else zero
  }

  /** The image `reconstructImageFromBlocks(blocks, h, w)` returns: h rows of w cells. */
  function CellsOf<T>(blocks: seq<seq<seq<T>>>, height: nat, width: nat, zero: T): (m: seq<seq<T>>)
    requires AllBlocks8(blocks)
    ensures IsRect(m, height, width)
  {
    seq(height, y requires 0 <= y < height =>
      seq(width, x requires 0 <= x < width => CellOf(blocks, CeilBlocks(width), y, x, zero)))
  }

  /** The innermost loops: block `block` copied into rows i.., columns j.. of `a`. */
  method WriteBlock<T>(a: array2<T>, block: seq<seq<T>>, i: nat, j: nat)
    requires IsRect(block, 8, 8) && i + 8 <= a.Length0 && j + 8 <= a.Length1
    modifies a
    ensures forall y, x :: 0 <= y < a.Length0 && 0 <= x < a.Length1 ==>
      a[y, x] == if i <= y < i + 8 && j <= x < j + 8 then block[y - i][x - j] else old(a[y, x])
  {
    for dx := 0 to 8
      invariant forall y, x :: 0 <= y < a.Length0 && 0 <= x < a.Length1 ==>
        a[y, x] == if i <= y < i + dx && j <= x < j + 8 then block[y - i][x - j] else old(a[y, x])
    {
      for dy := 0 to 8
        invariant forall y, x :: 0 <= y < a.Length0 && 0 <= x < a.Length1 ==>
          a[y, x] == if (i <= y < i + dx && j <= x < j + 8) || (y == i + dx && j <= x < j + dy) then block[y - i][x - j] else old(a[y, x])
      {
        a[i + dx, j + dy] := block[dx][dy];
      }
    }
  }

  /** Cells of blocks before (bi, bj) in row-major order hold their block's cell. */
  predicate WrittenUpTo<T(==)>(a: array2<T>, blocks: seq<seq<seq<T>>>, bw: nat, bi: nat, bj: nat, zero: T)
    requires AllBlocks8(blocks)
    reads a
  {
    forall y, x ::
      (0 <= y < a.Length0 && 0 <= x < a.Length1 && x < 8 * bw && (y < 8 * bi || (y < 8 * bi + 8 && x < 8 * bj)))
      ==> a[y, x] == CellOf(blocks, bw, y, x, zero)
  }

  /** Along one axis, block `b` holds the cells 8·b to 8·b + 7. */
  lemma InBlock(b: nat, v: nat)
    requires 8 * b <= v < 8 * b + 8
    ensures v / 8 == b && v % 8 == v - 8 * b
  {
  }

  /** The cells of block (bi, bj) are those `CellOf` gives. */
  lemma BlockCells<T>(blocks: seq<seq<seq<T>>>, bw: nat, bi: nat, bj: nat, y: nat, x: nat, zero: T)
    requires AllBlocks8(blocks) && FirstOfRow(bw, bi) + bj < |blocks|
    requires 8 * bi <= y < 8 * bi + 8 && 8 * bj <= x < 8 * bj + 8
    ensures CellOf(blocks, bw, y, x, zero) == blocks[FirstOfRow(bw, bi) + bj][y - 8 * bi][x - 8 * bj]
  {
    InBlock(bi, y);
    InBlock(bj, x);
  }

  /** One step of the block loop: `block = blocks[blockIndex++]` copied into place; false where it is undefined. */
  method WriteNextBlock<T>(a: array2<T>, blocks: seq<seq<seq<T>>>, bw: nat, bh: nat, bi: nat, bj: nat, k: nat, ghost zero: T) returns (ok: bool)
    requires AllBlocks8(blocks) && a.Length0 == 8 * bh && a.Length1 == 8 * bw && bi < bh && bj < bw
    requires k == FirstOfRow(bw, bi) + bj
    requires WrittenUpTo(a, blocks, bw, bi, bj, zero)
    modifies a
    ensures ok <==> k < |blocks|
    ensures ok ==> WrittenUpTo(a, blocks, bw, bi, bj + 1, zero)
  {
    if k >= |blocks| {
      return false;
    }
    WriteBlock(a, blocks[k], 8 * bi, 8 * bj);
    forall y, x | 0 <= y < a.Length0 && 0 <= x < a.Length1 && 8 * bi <= y < 8 * bi + 8 && 8 * bj <= x < 8 * bj + 8
      ensures a[y, x] == CellOf(blocks, bw, y, x, zero)
    {
      BlockCells(blocks, bw, bi, bj, y, x, zero);
    }
    return true;
  }

  /** The inner block loop: block row bi, all of its blocks. */
  method WriteBlockRow<T>(a: array2<T>, blocks: seq<seq<seq<T>>>, bw: nat, bh: nat, bi: nat, ghost zero: T) returns (ok: bool)
    requires AllBlocks8(blocks) && a.Length0 == 8 * bh && a.Length1 == 8 * bw && bi < bh
    requires FirstOfRow(bw, bi) <= |blocks|
    requires WrittenUpTo(a, blocks, bw, bi, 0, zero)
    modifies a
    ensures ok <==> FirstOfRow(bw, bi + 1) <= |blocks|
    ensures ok ==> WrittenUpTo(a, blocks, bw, bi + 1, 0, zero)
  {
    var k := FirstOfRow(bw, bi);
    for bj := 0 to bw
      invariant k == FirstOfRow(bw, bi) + bj
      invariant k <= |blocks|
      invariant WrittenUpTo(a, blocks, bw, bi, bj, zero)
    {
      ok := WriteNextBlock(a, blocks, bw, bh, bi, bj, k, zero);
      if !ok {
        return false;
      }
      k := k + 1;
    }
    return true;
  }

  /**
   * `reconstructImageFromBlocks(blocks, h, w)`: a zero-filled padded
   * array, the blocks copied into it in row-major order, trimmed to h
   * rows of w cells; None where a block it needs is missing and
   * `block[x]` throws.
   */
  method ReconstructImageFromBlocks<T>(blocks: seq<seq<seq<T>>>, height: nat, width: nat, zero: T) returns (r: Option<seq<seq<T>>>)
    requires AllBlocks8(blocks)
    ensures r.Some? <==> FirstOfRow(CeilBlocks(width), CeilBlocks(height)) <= |blocks|
    ensures r.Some? ==> r.value == CellsOf(blocks, height, width, zero)
  {
    var bh, bw := CeilBlocks(height), CeilBlocks(width);
    var a := new T[8 * bh, 8 * bw]((_, _) => zero);
    for bi := 0 to bh
      invariant FirstOfRow(bw, bi) <= |blocks|
      invariant WrittenUpTo(a, blocks, bw, bi, 0, zero)
    {
      var ok := WriteBlockRow(a, blocks, bw, bh, bi, zero);
      if !ok {
        FirstOfRowMonotone(bw, bi + 1, bh);
        return None;
      }
    }
    var cells := seq(height, y requires 0 <= y < height reads a => seq(width, x requires 0 <= x < width reads a => a[y, x]));
    forall y, x | 0 <= y < height && 0 <= x < width
      ensures cells[y][x] == CellOf(blocks, bw, y, x, zero)
    {
    }
    assert forall y :: 0 <= y < height ==> cells[y] == CellsOf(blocks, height, width, zero)[y];
    r := Some(cells);
  }

  lemma {:induction false} FirstOfRowMonotone(bw: nat, bi: nat, bh: nat)
    requires bi <= bh
    ensures FirstOfRow(bw, bi) <= FirstOfRow(bw, bh)
    decreases bh
  {
    if bi < bh {
      FirstOfRowMonotone(bw, bi, bh - 1);
    }
  }

  // ---------------------------------------------------------------------
  // Round trips
  // ---------------------------------------------------------------------

  /** The cell the reconstruction reads back at (y, x) is that of the image. */
  lemma DividedCell<T>(image: seq<seq<T>>, zero: T, y: nat, x: nat)
    requires IsImage(image) && y < |image| && x < |image[0]|
    ensures AllBlocks8(BlocksOf(Padded(image, zero), CeilBlocks(|image[0]|), CeilBlocks(|image|)))
    ensures CellOf(BlocksOf(Padded(image, zero), CeilBlocks(|image[0]|), CeilBlocks(|image|)), CeilBlocks(|image[0]|), y, x, zero) == image[y][x]
  {
    var bh, bw := CeilBlocks(|image|), CeilBlocks(|image[0]|);
    var p := Padded(image, zero);
    AllBlocksOf8(p, bw, bh);
    var bi, bj := y / 8, x / 8;
    var blocks := BlocksOf(p, bw, bh);
    var k := FirstOfRow(bw, bi) + bj;
    assert k < |blocks| && HasBlock(p, bi, bj) && blocks[k] == BlockOf(p, bi, bj) by {
      BlocksOfAt(p, bw, bh, bi, bj);
    }
    assert CellOf(blocks, bw, y, x, zero) == blocks[k][y - 8 * bi][x - 8 * bj] by {
      BlockCells(blocks, bw, bi, bj, y, x, zero);
    }
    assert BlockOf(p, bi, bj)[y - 8 * bi][x - 8 * bj] == p[y][x] by {
      BlockOfCell(p, bi, bj, y - 8 * bi, x - 8 * bj, y, x);
    }
    assert p[y][x] == image[y][x] by {
      PaddedCells(image, zero, y, x);
    }
  }

  /** `reconstructImageFromBlocks(divideIntoBlocks(img), h, w)` is `img` for a rectangular image. */
  lemma ReconstructDivided<T>(image: seq<seq<T>>, zero: T)
    requires IsImage(image) && IsRect(image, |image|, |image[0]|)
    ensures AllBlocks8(BlocksOf(Padded(image, zero), CeilBlocks(|image[0]|), CeilBlocks(|image|)))
    ensures CellsOf(BlocksOf(Padded(image, zero), CeilBlocks(|image[0]|), CeilBlocks(|image|)), |image|, |image[0]|, zero) == image
  {
    var h, w := |image|, |image[0]|;
    var bh, bw := CeilBlocks(h), CeilBlocks(w);
    var p := Padded(image, zero);
    var blocks := BlocksOf(p, bw, bh);
    AllBlocksOf8(p, bw, bh);
    var c := CellsOf(blocks, h, w, zero);
    forall y, x | 0 <= y < h && 0 <= x < w
      ensures c[y][x] == image[y][x]
    {
      DividedCell(image, zero, y, x);
    }
    assert forall y :: 0 <= y < h ==> c[y] == image[y];
  }

  lemma AllBlocksOf8<T>(p: seq<seq<T>>, bw: nat, rows: nat)
    requires |p| >= 8 * rows && forall i :: 0 <= i < |p| ==> |p[i]| >= 8 * bw
    ensures AllBlocks8(BlocksOf(p, bw, rows))
  {
    var blocks := BlocksOf(p, bw, rows);
    forall k | 0 <= k < |blocks|
      ensures IsRect(blocks[k], 8, 8)
    {
      var bi, bj := BlockOfIndex(bw, rows, k);
      BlocksOfAt(p, bw, rows, bi, bj);
    }
  }

  /** Every index below FirstOfRow(bw, rows) is that of some block (bi, bj). */
  lemma {:induction false} BlockOfIndex(bw: nat, rows: nat, k: nat) returns (bi: nat, bj: nat)
    requires k < FirstOfRow(bw, rows)
    ensures bi < rows && bj < bw && k == FirstOfRow(bw, bi) + bj
    decreases rows
  {
    if k < FirstOfRow(bw, rows - 1) {
      bi, bj := BlockOfIndex(bw, rows - 1, k);
    } else {
      bi, bj := rows - 1, k - FirstOfRow(bw, rows - 1);
    }
  }

  /** Block (bi, bj) of the cells the blocks make up is the block at FirstOfRow(bw, bi) + bj. */
  lemma BlockOfCells<T>(blocks: seq<seq<seq<T>>>, bh: nat, bw: nat, bi: nat, bj: nat, zero: T)
    requires AllBlocks8(blocks) && |blocks| == FirstOfRow(bw, bh) && bi < bh && bj < bw
    ensures HasBlock(CellsOf(blocks, 8 * bh, 8 * bw, zero), bi, bj)
    ensures FirstOfRow(bw, bi) + bj < |blocks|
    ensures BlockOf(CellsOf(blocks, 8 * bh, 8 * bw, zero), bi, bj) == blocks[FirstOfRow(bw, bi) + bj]
  {
    var c := CellsOf(blocks, 8 * bh, 8 * bw, zero);
    BlockIndexBound(bw, bi, bj, bh);
    assert CeilBlocks(8 * bw) == bw;
    var k := FirstOfRow(bw, bi) + bj;
    var b := BlockOf(c, bi, bj);
    forall x, y | 0 <= x < 8 && 0 <= y < 8
      ensures b[x][y] == blocks[k][x][y]
    {
      BlockCells(blocks, bw, bi, bj, 8 * bi + x, 8 * bj + y, zero);
    }
    assert forall x :: 0 <= x < 8 ==> b[x] == blocks[k][x];
  }

  /**
   * Cutting the reconstruction of a whole number of blocks into blocks
   * again gives the same blocks: `divideIntoBlocks` undoes
   * `reconstructImageFromBlocks` where there is no padding to trim.
   */
  lemma DivideReconstructed<T>(blocks: seq<seq<seq<T>>>, bh: nat, bw: nat, zero: T)
    requires AllBlocks8(blocks) && bh > 0 && bw > 0 && |blocks| == FirstOfRow(bw, bh)
    ensures IsImage(CellsOf(blocks, 8 * bh, 8 * bw, zero))
    ensures CeilBlocks(8 * bh) == bh && CeilBlocks(8 * bw) == bw
    ensures BlocksOf(Padded(CellsOf(blocks, 8 * bh, 8 * bw, zero), zero), bw, bh) == blocks
  {
    var c := CellsOf(blocks, 8 * bh, 8 * bw, zero);
    assert CeilBlocks(8 * bh) == bh && CeilBlocks(8 * bw) == bw;
    var p := Padded(c, zero);
    assert p == c by {
      forall i | 0 <= i < 8 * bh
        ensures p[i] == c[i]
      {
        assert |p[i]| == |c[i]|;
      }
    }
    var d := BlocksOf(p, bw, bh);
    forall k | 0 <= k < |blocks|
      ensures d[k] == blocks[k]
    {
      var bi, bj := BlockOfIndex(bw, bh, k);
      BlocksOfAt(p, bw, bh, bi, bj);
      BlockOfCells(blocks, bh, bw, bi, bj, zero);
    }
  }
}
