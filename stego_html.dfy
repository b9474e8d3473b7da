/**
 * The block steganography of `client-html/esteganography.js`: one bit
 * of the framed message per 8×8 block, written into the (7, 7)
 * coefficient of the blue channel's discrete cosine transform, and read
 * back from the sign of that coefficient.  The transform pair itself is
 * floating point and is a parameter of the model (`Transform`).
 */
module StegoHtml {
  import opened Js
  import opened Platform
  import opened Base65
  import opened Framing
  import opened Pixels
  import opened Blocks

  /** One colour channel of an 8×8 block. */
  type Square8 = b: seq<seq<real>> | IsRect(b, 8, 8) witness seq(8, _ => seq(8, _ => 0.0))

  /** `dct2D` and `idct2D` on 8×8 blocks, left abstract. */
  datatype Transform = Transform(dct: Square8 -> Square8, idct: Square8 -> Square8)

  /** `dctB[7][7] = bit === "1" ? 5 : -5`: only the last coefficient changes. */
  function Mark(d: Square8, bit: char): (m: Square8)
    ensures m[7][7] == (if bit == '1' then 5.0 else -5.0)
    ensures forall i, j :: 0 <= i < 8 && 0 <= j < 8 && !(i == 7 && j == 7) ==> m[i][j] == d[i][j]
  {
    d[7 := d[7][7 := if bit == '1' then 5.0 else -5.0]]
  }

  /**
   * The block one iteration of `insertMessage` writes back: each channel
   * transformed and transformed back, the blue one with its mark, merged
   * over the original block.  The result is a block of byte-valued
   * colours with the original's alpha.
   */
  function EmbedBlock(t: Transform, block: seq<seq<Pixel>>, bit: char): (m: seq<seq<Pixel>>)
    requires IsRect(block, 8, 8)
    ensures IsRect(m, 8, 8) && InRange(m)
    ensures forall i, j :: 0 <= i < 8 && 0 <= j < 8 ==> m[i][j].a == block[i][j].a
  {
    var r: Square8 := ChannelOf(block, 0);
    var g: Square8 := ChannelOf(block, 1);
    var b: Square8 := ChannelOf(block, 2);
    var ir, ig, ib := t.idct(t.dct(r)), t.idct(t.dct(g)), t.idct(Mark(t.dct(b), bit));
    MergedRange(ir, ig, ib, block);
    MergedOf(ir, ig, ib, block)
  }

  // ---------------------------------------------------------------------
  // insertMessage
  // ---------------------------------------------------------------------

  /** The cells of a two-dimensional array, row by row. */
  function Cells<T>(a: array2<T>): (m: seq<seq<T>>)
    reads a
    ensures IsRect(m, a.Length0, a.Length1)
    ensures forall y, x :: 0 <= y < a.Length0 && 0 <= x < a.Length1 ==> m[y][x] == a[y, x]
  {
    seq(a.Length0, y requires 0 <= y < a.Length0 reads a =>
      seq(a.Length1, x requires 0 <= x < a.Length1 reads a => a[y, x]))
  }

  /** An image of whole blocks: h rows of w cells, both multiples of 8. */
  predicate Tiled<T>(image: seq<seq<T>>, h: nat, w: nat)
  {
    IsRect(image, h, w) && h % 8 == 0 && w % 8 == 0
  }

  lemma TiledBlock<T>(image: seq<seq<T>>, h: nat, w: nat, y: nat, x: nat)
    requires Tiled(image, h, w) && y < h && x < w
    ensures HasBlock(image, y / 8, x / 8)
  {
  }

  /**
   * The index of the block holding cell (y, x) in `insertMessage`'s
   * row-major walk over blocks of an image `w` cells wide.
   */
  function BlockIndex(w: nat, y: nat, x: nat): nat
  {
    FirstOfRow(w / 8, y / 8) + x / 8
  }

  /**
   * Cell (y, x) once `insertMessage` has run over the whole image with
   * `bits`: the block with index k < |bits| replaced by its embedding of
   * bit k, every other cell as it was.
   */
  function InsertedCell(t: Transform, image: seq<seq<Pixel>>, h: nat, w: nat, bits: string, y: nat, x: nat): Pixel
    requires Tiled(image, h, w) && y < h && x < w
  {
    var k := BlockIndex(w, y, x);
    TiledBlock(image, h, w, y, x);
    if k < |bits| then EmbedBlock(t, BlockOf(image, y / 8, x / 8), bits[k])[y % 8][x % 8] else image[y][x]
  }

  /** The image `insertMessage` leaves behind, cell by cell. */
  function InsertedImage(t: Transform, image: seq<seq<Pixel>>, h: nat, w: nat, bits: string): (m: seq<seq<Pixel>>)
    requires Tiled(image, h, w)
    ensures Tiled(m, h, w)
  {
    seq(h, y requires 0 <= y < h => seq(w, x requires 0 <= x < w => InsertedCell(t, image, h, w, bits, y, x)))
  }

  /** Block (y / 8, x / 8) comes before block (bi, bj) in row-major order. */
  predicate Before(y: nat, x: nat, bi: nat, bj: nat)
  {
    y / 8 < bi || (y / 8 == bi && x / 8 < bj)
  }

  /** The cells are those of `target` in the blocks before (bi, bj), and those of `orig` from there on. */
  predicate EmbeddedUpTo(c: seq<seq<Pixel>>, orig: seq<seq<Pixel>>, target: seq<seq<Pixel>>, h: nat, w: nat, bi: nat, bj: nat)
  {
    IsRect(c, h, w) && IsRect(orig, h, w) && IsRect(target, h, w) &&
    forall y, x :: 0 <= y < h && 0 <= x < w ==>
      c[y][x] == if Before(y, x, bi, bj) then target[y][x] else orig[y][x]
  }

  /** A block after (bi, bj) in row-major order has the higher index. */
  lemma LaterIndex(bw: nat, bi: nat, bj: nat, ci: nat, cj: nat)
    requires bj <= bw && cj < bw && !(ci < bi || (ci == bi && cj < bj))
    ensures FirstOfRow(bw, ci) + cj >= FirstOfRow(bw, bi) + bj
  {
    if ci > bi {
      FirstOfRowMonotone(bw, bi + 1, ci);
    }
  }

  /** The block at (bi, bj) has not been written yet: it is the original one. */
  lemma SlicedIsOriginal(c: seq<seq<Pixel>>, orig: seq<seq<Pixel>>, target: seq<seq<Pixel>>, h: nat, w: nat, bi: nat, bj: nat)
    requires Tiled(orig, h, w) && 8 * bi < h && 8 * bj < w
    requires EmbeddedUpTo(c, orig, target, h, w, bi, bj)
    ensures HasBlock(c, bi, bj) && HasBlock(orig, bi, bj) && BlockOf(c, bi, bj) == BlockOf(orig, bi, bj)
  {
    forall i | 0 <= i < 8
      ensures BlockOf(c, bi, bj)[i] == BlockOf(orig, bi, bj)[i]
    {
      forall j | 0 <= j < 8
        ensures BlockOf(c, bi, bj)[i][j] == BlockOf(orig, bi, bj)[i][j]
      {
        var y, x := 8 * bi + i, 8 * bj + j;
        InBlock(bi, y);
        InBlock(bj, x);
        assert !Before(y, x, bi, bj);
      }
    }
  }

  /**
   * The middle of the block loop: the block split into channels, each
   * transformed, the blue one marked with `bit`, transformed back and
   * merged over the block.
   */
  method Embed(t: Transform, block: seq<seq<Pixel>>, bit: char) returns (modified: seq<seq<Pixel>>)
    requires IsRect(block, 8, 8)
    ensures modified == EmbedBlock(t, block, bit)
  {
    var r, g, b := SplitRGB(block);
    var dctR, dctG, dctB := t.dct(r), t.dct(g), t.dct(b);
    dctB := Mark(dctB, bit);
    modified := MergeRGB(t.idct(dctR), t.idct(dctG), t.idct(dctB), block);
  }

  /** The inserted cell (y, x) of block (bi, bj) is the embedded block's. */
  lemma InsertedInBlock(t: Transform, orig: seq<seq<Pixel>>, h: nat, w: nat, bits: string, bi: nat, bj: nat, y: nat, x: nat)
    requires Tiled(orig, h, w) && y < h && x < w
    requires 8 * bi <= y < 8 * bi + 8 && 8 * bj <= x < 8 * bj + 8
    requires (FirstOfRow(w / 8, bi) + bj) < |bits|
    ensures HasBlock(orig, bi, bj) && Before(y, x, bi, bj + 1)
    ensures InsertedImage(t, orig, h, w, bits)[y][x]
      == EmbedBlock(t, BlockOf(orig, bi, bj), bits[(FirstOfRow(w / 8, bi) + bj)])[y - 8 * bi][x - 8 * bj]
  {
    assert Before(y, x, bi, bj + 1) by {
      InBlock(bi, y);
      InBlock(bj, x);
    }
    assert InsertedImage(t, orig, h, w, bits)[y][x] == InsertedCell(t, orig, h, w, bits, y, x);
    InsertedCellAt(t, orig, h, w, bits, bi, bj, y - 8 * bi, x - 8 * bj, y, x);
  }

  /** Copying the embedded block (bi, bj) into place moves the boundary one block on. */
  lemma WrittenBlock(before: seq<seq<Pixel>>, modified: seq<seq<Pixel>>, after: seq<seq<Pixel>>, t: Transform, orig: seq<seq<Pixel>>, h: nat, w: nat, bits: string, bi: nat, bj: nat)
    requires Tiled(orig, h, w) && 8 * bi < h && 8 * bj < w
    requires (FirstOfRow(w / 8, bi) + bj) < |bits|
    requires EmbeddedUpTo(before, orig, InsertedImage(t, orig, h, w, bits), h, w, bi, bj)
    requires HasBlock(orig, bi, bj)
    requires modified == EmbedBlock(t, BlockOf(orig, bi, bj), bits[(FirstOfRow(w / 8, bi) + bj)])
    requires after == Pasted(before, h, w, modified, 8 * bi, 8 * bj)
    ensures EmbeddedUpTo(after, orig, InsertedImage(t, orig, h, w, bits), h, w, bi, bj + 1)
  {
    var target := InsertedImage(t, orig, h, w, bits);
    forall y, x | 0 <= y < h && 0 <= x < w
      ensures after[y][x] == if Before(y, x, bi, bj + 1) then target[y][x] else orig[y][x]
    {
      WrittenCell(before, modified, after, t, orig, h, w, bits, bi, bj, y, x);
    }
  }

  /** `WrittenBlock` for one cell. */
  lemma WrittenCell(before: seq<seq<Pixel>>, modified: seq<seq<Pixel>>, after: seq<seq<Pixel>>, t: Transform, orig: seq<seq<Pixel>>, h: nat, w: nat, bits: string, bi: nat, bj: nat, y: nat, x: nat)
    requires Tiled(orig, h, w) && 8 * bi < h && 8 * bj < w && y < h && x < w
    requires (FirstOfRow(w / 8, bi) + bj) < |bits|
    requires EmbeddedUpTo(before, orig, InsertedImage(t, orig, h, w, bits), h, w, bi, bj)
    requires HasBlock(orig, bi, bj)
    requires modified == EmbedBlock(t, BlockOf(orig, bi, bj), bits[(FirstOfRow(w / 8, bi) + bj)])
    requires after == Pasted(before, h, w, modified, 8 * bi, 8 * bj)
    ensures after[y][x] == if Before(y, x, bi, bj + 1) then InsertedImage(t, orig, h, w, bits)[y][x] else orig[y][x]
  {
    if 8 * bi <= y < 8 * bi + 8 && 8 * bj <= x < 8 * bj + 8 {
      InsertedInBlock(t, orig, h, w, bits, bi, bj, y, x);
    } else {
      assert after[y][x] == before[y][x];
      assert Before(y, x, bi, bj + 1) == Before(y, x, bi, bj);
    }
  }

  /** The cells with an 8×8 block copied over rows i.., columns j.. . */
  function Pasted<T>(c: seq<seq<T>>, h: nat, w: nat, block: seq<seq<T>>, i: nat, j: nat): (r: seq<seq<T>>)
    requires IsRect(c, h, w) && IsRect(block, 8, 8) && i + 8 <= h && j + 8 <= w
    ensures IsRect(r, h, w)
  {
    seq(h, y requires 0 <= y < h => seq(w, x requires 0 <= x < w =>
      if i <= y < i + 8 && j <= x < j + 8 then block[y - i][x - j] else c[y][x]))
  }

  /** The copy loops `image[y + i][x + j] = modifiedBlock[i][j]`. */
  method PasteBlock<T>(a: array2<T>, block: seq<seq<T>>, i: nat, j: nat)
    requires IsRect(block, 8, 8) && i + 8 <= a.Length0 && j + 8 <= a.Length1
    modifies a
    ensures Cells(a) == Pasted(old(Cells(a)), a.Length0, a.Length1, block, i, j)
  {
    ghost var before := Cells(a);
    WriteBlock(a, block, i, j);
    ghost var p := Pasted(before, a.Length0, a.Length1, block, i, j);
    assert forall y :: 0 <= y < a.Length0 ==> Cells(a)[y] == p[y];
  }

  /** The body of the block loop, as `insertMessage` runs it on block (bi, bj). */
  method EmbedAt(t: Transform, image: array2<Pixel>, bi: nat, bj: nat, bit: char, ghost orig: seq<seq<Pixel>>, ghost bits: string, ghost target: seq<seq<Pixel>>)
    requires Tiled(orig, image.Length0, image.Length1) && target == InsertedImage(t, orig, image.Length0, image.Length1, bits)
    requires 8 * bi < image.Length0 && 8 * bj < image.Length1
    requires (FirstOfRow(image.Length1 / 8, bi) + bj) < |bits| && bit == bits[(FirstOfRow(image.Length1 / 8, bi) + bj)]
    requires EmbeddedUpTo(Cells(image), orig, target, image.Length0, image.Length1, bi, bj)
    modifies image
    ensures EmbeddedUpTo(Cells(image), orig, target, image.Length0, image.Length1, bi, bj + 1)
  {
    ghost var before := Cells(image);
    assert HasBlock(before, bi, bj) && HasBlock(orig, bi, bj) && BlockOf(before, bi, bj) == BlockOf(orig, bi, bj) by {
      SlicedIsOriginal(before, orig, target, image.Length0, image.Length1, bi, bj);
    }
    var block := BlockOf(Cells(image), bi, bj);
    var modified := Embed(t, block, bit);
    PasteBlock(image, modified, 8 * bi, 8 * bj);
    WrittenBlock(before, modified, Cells(image), t, orig, image.Length0, image.Length1, bits, bi, bj);
  }

  /** At the end of block row bi the boundary is the start of row bi + 1. */
  lemma NextBlockRow(c: seq<seq<Pixel>>, orig: seq<seq<Pixel>>, target: seq<seq<Pixel>>, h: nat, w: nat, bi: nat)
    requires w % 8 == 0 && EmbeddedUpTo(c, orig, target, h, w, bi, w / 8)
    ensures EmbeddedUpTo(c, orig, target, h, w, bi + 1, 0)
  {
    forall y: nat, x: nat | y < h && x < w
      ensures Before(y, x, bi, w / 8) == Before(y, x, bi + 1, 0)
    {
    }
  }

  /**
   * The inner loop of `insertMessage`: the blocks of block row bi, left
   * to right; `stopped` where it returns because the bits ran out.
   */
  method EmbedBlockRow(t: Transform, image: array2<Pixel>, bi: nat, index: nat, bits: string, ghost orig: seq<seq<Pixel>>)
    returns (next: nat, stopped: bool)
    requires Tiled(orig, image.Length0, image.Length1) && 8 * bi < image.Length0
    requires index == FirstOfRow(image.Length1 / 8, bi)
    requires EmbeddedUpTo(Cells(image), orig, InsertedImage(t, orig, image.Length0, image.Length1, bits), image.Length0, image.Length1, bi, 0)
    modifies image
    ensures stopped ==> Cells(image) == InsertedImage(t, orig, image.Length0, image.Length1, bits)
    ensures !stopped ==> next == FirstOfRow(image.Length1 / 8, bi + 1)
    ensures !stopped ==> EmbeddedUpTo(Cells(image), orig, InsertedImage(t, orig, image.Length0, image.Length1, bits), image.Length0, image.Length1, bi + 1, 0)
  {
    var h, w := image.Length0, image.Length1;
    ghost var target := InsertedImage(t, orig, h, w, bits);
    next := index;
    var x, bj := 0, 0;
    while x < w
      invariant x == 8 * bj && x <= w
      invariant next == FirstOfRow(w / 8, bi) + bj
      invariant EmbeddedUpTo(Cells(image), orig, target, h, w, bi, bj)
    {
      if next >= |bits| {
        InsertedRest(Cells(image), t, orig, h, w, bits, bi, bj);
        return next, true;
      }
      EmbedAt(t, image, bi, bj, bits[next], orig, bits, target);
      next := next + 1;
      x, bj := x + 8, bj + 1;
    }
    NextBlockRow(Cells(image), orig, target, h, w, bi);
    return next, false;
  }

  /**
   * `insertMessage(image, message)` on an image of whole blocks: the bits
   * of the framed Base65 text written one per block, in row-major order,
   * into the image in place, stopping once the bits run out.
   */
  method InsertMessage(t: Transform, p: Platform, image: array2<Pixel>, message: string)
    requires image.Length0 % 8 == 0 && image.Length1 % 8 == 0
    modifies image
    ensures Tiled(old(Cells(image)), image.Length0, image.Length1)
    ensures Cells(image) == InsertedImage(t, old(Cells(image)), image.Length0, image.Length1, MessageBits(p, message))
  {
    var bits := MessageBits(p, message);
    InsertBits(t, image, bits);
  }

  /** The two block loops of `insertMessage`, over the bits already computed. */
  method InsertBits(t: Transform, image: array2<Pixel>, bits: string)
    requires image.Length0 % 8 == 0 && image.Length1 % 8 == 0
    modifies image
    ensures Tiled(old(Cells(image)), image.Length0, image.Length1)
    ensures Cells(image) == InsertedImage(t, old(Cells(image)), image.Length0, image.Length1, bits)
  {
    ghost var orig := Cells(image);
    var h, w := image.Length0, image.Length1;
    ghost var target := InsertedImage(t, orig, h, w, bits);
    var index := 0;
    var y, bi := 0, 0;
    while y < h
      invariant y == 8 * bi && y <= h
      invariant index == FirstOfRow(w / 8, bi)
      invariant EmbeddedUpTo(Cells(image), orig, target, h, w, bi, 0)
    {
      var next, stopped := EmbedBlockRow(t, image, bi, index, bits, orig);
      if stopped {
        return;
      }
      index, y, bi := next, y + 8, bi + 1;
    }
    InsertedRest(Cells(image), t, orig, h, w, bits, bi, 0);
  }

  /**
   * Once the bits run out at block (bi, bj), or all blocks are done, the
   * cells are the inserted image.
   */
  lemma InsertedRest(c: seq<seq<Pixel>>, t: Transform, orig: seq<seq<Pixel>>, h: nat, w: nat, bits: string, bi: nat, bj: nat)
    requires Tiled(orig, h, w)
    requires bj <= w / 8
    requires FirstOfRow(w / 8, bi) + bj >= |bits| || (bi == h / 8 && bj == 0)
    requires EmbeddedUpTo(c, orig, InsertedImage(t, orig, h, w, bits), h, w, bi, bj)
    ensures c == InsertedImage(t, orig, h, w, bits)
  {
    var m := InsertedImage(t, orig, h, w, bits);
    forall y, x | 0 <= y < h && 0 <= x < w
      ensures c[y][x] == m[y][x]
    {
      if !Before(y, x, bi, bj) {
        LaterIndex(w / 8, bi, bj, y / 8, x / 8);
      }
    }
    assert forall y :: 0 <= y < h ==> c[y] == m[y];
  }

  /** Block (bi, bj) of the inserted image is the embedding of bit k where its index k is below |bits|, and the original block elsewhere. */
  lemma InsertedBlocks(t: Transform, image: seq<seq<Pixel>>, h: nat, w: nat, bits: string, bi: nat, bj: nat)
    requires Tiled(image, h, w) && 8 * bi < h && 8 * bj < w
    ensures HasBlock(image, bi, bj) && HasBlock(InsertedImage(t, image, h, w, bits), bi, bj)
    ensures FirstOfRow(w / 8, bi) + bj < |bits| ==>
      BlockOf(InsertedImage(t, image, h, w, bits), bi, bj) == EmbedBlock(t, BlockOf(image, bi, bj), bits[FirstOfRow(w / 8, bi) + bj])
    ensures FirstOfRow(w / 8, bi) + bj >= |bits| ==>
      BlockOf(InsertedImage(t, image, h, w, bits), bi, bj) == BlockOf(image, bi, bj)
  {
    InsertedBlockCell(t, image, h, w, bits, bi, bj, 0, 0);
    if FirstOfRow(w / 8, bi) + bj < |bits| {
      InsertedBlockEmbedded(t, image, h, w, bits, bi, bj);
    } else {
      InsertedBlockKept(t, image, h, w, bits, bi, bj);
    }
  }

  /** A block whose index is below |bits| becomes the embedding of its bit. */
  lemma InsertedBlockEmbedded(t: Transform, image: seq<seq<Pixel>>, h: nat, w: nat, bits: string, bi: nat, bj: nat)
    requires Tiled(image, h, w) && 8 * bi < h && 8 * bj < w
    requires HasBlock(image, bi, bj) && HasBlock(InsertedImage(t, image, h, w, bits), bi, bj)
    requires FirstOfRow(w / 8, bi) + bj < |bits|
    ensures BlockOf(InsertedImage(t, image, h, w, bits), bi, bj) == EmbedBlock(t, BlockOf(image, bi, bj), bits[FirstOfRow(w / 8, bi) + bj])
  {
    var block := BlockOf(InsertedImage(t, image, h, w, bits), bi, bj);
    var target := EmbedBlock(t, BlockOf(image, bi, bj), bits[FirstOfRow(w / 8, bi) + bj]);
    forall i, j | 0 <= i < 8 && 0 <= j < 8
      ensures block[i][j] == target[i][j]
    {
      InsertedBlockCell(t, image, h, w, bits, bi, bj, i, j);
    }
    SameSquares(block, target);
  }

  /** A block whose index is |bits| or more is left as it was. */
  lemma InsertedBlockKept(t: Transform, image: seq<seq<Pixel>>, h: nat, w: nat, bits: string, bi: nat, bj: nat)
    requires Tiled(image, h, w) && 8 * bi < h && 8 * bj < w
    requires HasBlock(image, bi, bj) && HasBlock(InsertedImage(t, image, h, w, bits), bi, bj)
    requires FirstOfRow(w / 8, bi) + bj >= |bits|
    ensures BlockOf(InsertedImage(t, image, h, w, bits), bi, bj) == BlockOf(image, bi, bj)
  {
    var block := BlockOf(InsertedImage(t, image, h, w, bits), bi, bj);
    var original := BlockOf(image, bi, bj);
    forall i, j | 0 <= i < 8 && 0 <= j < 8
      ensures block[i][j] == original[i][j]
    {
      InsertedBlockCell(t, image, h, w, bits, bi, bj, i, j);
    }
    SameSquares(block, original);
  }

  /** Two 8×8 matrices with the same cells are equal. */
  lemma SameSquares<T>(a: seq<seq<T>>, b: seq<seq<T>>)
    requires IsRect(a, 8, 8) && IsRect(b, 8, 8)
    requires forall i, j :: 0 <= i < 8 && 0 <= j < 8 ==> a[i][j] == b[i][j]
    ensures a == b
  {
    assert forall i :: 0 <= i < 8 ==> a[i] == b[i];
  }

  lemma InsertedBlockCell(t: Transform, image: seq<seq<Pixel>>, h: nat, w: nat, bits: string, bi: nat, bj: nat, i: nat, j: nat)
    requires Tiled(image, h, w) && 8 * bi < h && 8 * bj < w && i < 8 && j < 8
    ensures HasBlock(image, bi, bj) && HasBlock(InsertedImage(t, image, h, w, bits), bi, bj)
    ensures BlockOf(InsertedImage(t, image, h, w, bits), bi, bj)[i][j]
      == if FirstOfRow(w / 8, bi) + bj < |bits| then EmbedBlock(t, BlockOf(image, bi, bj), bits[FirstOfRow(w / 8, bi) + bj])[i][j]
         else BlockOf(image, bi, bj)[i][j]
  {
    var y, x := 8 * bi + i, 8 * bj + j;
    var m := InsertedImage(t, image, h, w, bits);
    assert HasBlock(m, bi, bj) && BlockOf(m, bi, bj)[i][j] == InsertedCell(t, image, h, w, bits, y, x) by {
      TiledBlock(m, h, w, y, x);
      InBlock(bi, y);
      InBlock(bj, x);
      BlockOfCell(m, bi, bj, i, j, y, x);
    }
    InsertedCellAt(t, image, h, w, bits, bi, bj, i, j, y, x);
    BlockOfCell(image, bi, bj, i, j, y, x);
  }

  /** Cell (y, x), which is cell (i, j) of block (bi, bj), once `insertMessage` has run. */
  lemma InsertedCellAt(t: Transform, image: seq<seq<Pixel>>, h: nat, w: nat, bits: string, bi: nat, bj: nat, i: nat, j: nat, y: nat, x: nat)
    requires Tiled(image, h, w) && y < h && x < w && i < 8 && j < 8
    requires y == 8 * bi + i && x == 8 * bj + j
    ensures HasBlock(image, bi, bj)
    ensures FirstOfRow(w / 8, bi) + bj < |bits| ==>
      InsertedCell(t, image, h, w, bits, y, x) == EmbedBlock(t, BlockOf(image, bi, bj), bits[FirstOfRow(w / 8, bi) + bj])[i][j]
    ensures FirstOfRow(w / 8, bi) + bj >= |bits| ==> InsertedCell(t, image, h, w, bits, y, x) == image[y][x]
  {
    InBlock(bi, y);
    InBlock(bj, x);
    TiledBlock(image, h, w, y, x);
  }



  /** A cell of a block whose index is past the bits keeps its value. */
  lemma InsertedOutside(t: Transform, image: seq<seq<Pixel>>, h: nat, w: nat, bits: string, y: nat, x: nat)
    requires Tiled(image, h, w) && y < h && x < w
    requires BlockIndex(w, y, x) >= |bits|
    ensures InsertedImage(t, image, h, w, bits)[y][x] == image[y][x]
  {
  }

  /** Insertion keeps every pixel's alpha, and leaves colours in 0..255 wherever they already were. */
  lemma InsertedAlpha(t: Transform, image: seq<seq<Pixel>>, h: nat, w: nat, bits: string)
    requires Tiled(image, h, w)
    ensures forall y, x :: 0 <= y < h && 0 <= x < w ==> InsertedImage(t, image, h, w, bits)[y][x].a == image[y][x].a
    ensures InRange(image) ==> InRange(InsertedImage(t, image, h, w, bits))
  {
    var m: seq<seq<Pixel>> := InsertedImage(t, image, h, w, bits);
    forall y: int, x: int | 0 <= y < h && 0 <= x < w
      ensures m[y][x].a == image[y][x].a
      ensures InRange(image) ==> 0 <= m[y][x].r <= 255 && 0 <= m[y][x].g <= 255 && 0 <= m[y][x].b <= 255
    {
      TiledBlock(image, h, w, y, x);
      var bi, bj := y / 8, x / 8;
      assert BlockOf(image, bi, bj)[y % 8][x % 8] == image[y][x];
    }
  }

  // ---------------------------------------------------------------------
  // extractMessage
  // ---------------------------------------------------------------------

  /** `row.slice(x, x + 8)`. */
  function Slice8<T>(row: seq<T>, x: nat): (r: seq<T>)
    ensures |r| <= 8
  {
    if x >= |row| then [] else row[x .. Min(|row|, x + 8)]
  }

  /** `image.slice(y, y + 8).map(row => row.slice(x, x + 8))`: at most eight rows of at most eight cells. */
  function BlockAt<T>(image: seq<seq<T>>, y: nat, x: nat): (b: seq<seq<T>>)
    requires y < |image|
    ensures |b| == Min(8, |image| - y)
  {
    var rows := image[y .. Min(|image|, y + 8)];
    seq(|rows|, i requires 0 <= i < |rows| => Slice8(rows[i], x))
  }

  /** The blocks of the strip at row y from column x on, in the order the inner loop visits them. */
  function StripBlocks<T>(image: seq<seq<T>>, y: nat, x: nat): seq<seq<seq<T>>>
    requires y < |image|
    decreases |image[y]| - x
  {
    if x >= |image[y]| then [] else [BlockAt(image, y, x)] + StripBlocks(image, y, x + 8)
  }

  /** The blocks of the strips at rows y, y + 8, …: the order `extractMessage` visits blocks in. */
  function ScanBlocks<T>(image: seq<seq<T>>, y: nat): seq<seq<seq<T>>>
    decreases |image| - y
  {
    if y >= |image| then [] else StripBlocks(image, y, 0) + ScanBlocks(image, y + 8)
  }

  /**
   * The bit `extractMessage` reads from a block: whether the (7, 7)
   * coefficient of the blue channel's transform is positive.  Where the
   * block has fewer than eight rows, `dctBlock[7]` is undefined and the
   * read throws (None); where a row is shorter than eight, the
   * coefficient is NaN, which is not positive.
   */
  function BlockBit(t: Transform, block: seq<seq<Pixel>>): (r: Option<char>)
    ensures r.Some? <==> |block| >= 8
    ensures r.Some? ==> r.value == '0' || r.value == '1'
  {
    if |block| < 8 then None
    else if IsRect(block, 8, 8) then
      var b: Square8 := ChannelOf(block, 2);
      Some(if t.dct(b)[7][7] > 0.0 then '1' else '0')
    else Some('0')
  }

  /** `s` in front of the text, if there is one. */
  function Prefixed(s: string, r: Option<string>): Option<string>
  {
    match r
    case None => None
    case Some(u) => Some(s + u)
  }

  /**
   * The bits read from the blocks in order, one per block, until `limit`
   * bits are read or the blocks run out; None where a block read throws.
   */
  function ReadBits(t: Transform, blocks: seq<seq<seq<Pixel>>>, limit: nat): (r: Option<string>)
    ensures r.Some? ==> |r.value| == Min(limit, |blocks|) && IsBitText(r.value)
  {
    if limit == 0 || |blocks| == 0 then Some("")
    else match BlockBit(t, blocks[0])
      case None => None
      case Some(b) => Prefixed([b], ReadBits(t, blocks[1..], limit - 1))
  }

  /** One more block read: its bit goes after the bits so far. */
  lemma ReadStep(t: Transform, bits: string, block: seq<seq<Pixel>>, rest: seq<seq<seq<Pixel>>>, limit: nat)
    requires |bits| < limit && BlockBit(t, block).Some?
    ensures Prefixed(bits, ReadBits(t, [block] + rest, limit - |bits|))
      == Prefixed(bits + [BlockBit(t, block).value], ReadBits(t, rest, limit - |bits + [BlockBit(t, block).value]|))
  {
    assert ([block] + rest)[1..] == rest;
    match ReadBits(t, rest, limit - |bits| - 1)
    case None =>
    case Some(u) => assert bits + ([BlockBit(t, block).value] + u) == (bits + [BlockBit(t, block).value]) + u;
  }

  /**
   * The body of the block loop: the block split into channels, the blue
   * one transformed, and the sign of coefficient (7, 7) read.
   */
  method ReadBlock(t: Transform, block: seq<seq<Pixel>>) returns (bit: Option<char>)
    ensures bit == BlockBit(t, block)
  {
    var r, g, b := SplitRGB(block);
    if |block| < 8 {
      return None;
    }
    if IsRect(block, 8, 8) {
      var dctBlock := t.dct(b);
      return Some(if dctBlock[7][7] > 0.0 then '1' else '0');
    }
    return Some('0');
  }

  /**
   * The inner block loop of `extractMessage` over the strip at row y,
   * after `start`: the bits read so far, followed by those it reads, and
   * `failed` where a block read throws.  `rest` stands for the blocks of
   * the strips below.
   */
  method ReadStrip(t: Transform, image: seq<seq<Pixel>>, y: nat, start: string, limit: nat, ghost rest: seq<seq<seq<Pixel>>>)
    returns (bits: string, failed: bool)
    requires y < |image| && |start| <= limit
    ensures !failed ==> |bits| <= limit
    ensures failed ==> Prefixed(start, ReadBits(t, StripBlocks(image, y, 0) + rest, limit - |start|)) == None
    ensures !failed ==>
      (Prefixed(start, ReadBits(t, StripBlocks(image, y, 0) + rest, limit - |start|)) == Prefixed(bits, ReadBits(t, rest, limit - |bits|)))
  {
    bits := start;
    var x := 0;
    while x < |image[y]|
      invariant |bits| <= limit
      invariant Prefixed(start, ReadBits(t, StripBlocks(image, y, 0) + rest, limit - |start|))
        == Prefixed(bits, ReadBits(t, StripBlocks(image, y, x) + rest, limit - |bits|))
      decreases |image[y]| - x
    {
      if |bits| >= limit {
        break;
      }
      bits, failed := ReadStripBlock(t, image, y, x, bits, limit, rest);
      if failed {
        return;
      }
      x := x + 8;
    }
    if |bits| < limit {
      assert StripBlocks(image, y, x) + rest == rest;
    }
    return bits, false;
  }

  /** The body of the inner block loop: the block at column x read, its bit pushed. */
  method ReadStripBlock(t: Transform, image: seq<seq<Pixel>>, y: nat, x: nat, bits: string, limit: nat, ghost rest: seq<seq<seq<Pixel>>>)
    returns (bits': string, failed: bool)
    requires y < |image| && x < |image[y]| && |bits| < limit
    ensures failed ==> Prefixed(bits, ReadBits(t, StripBlocks(image, y, x) + rest, limit - |bits|)) == None
    ensures !failed ==> |bits'| <= limit
    ensures !failed ==>
      (Prefixed(bits, ReadBits(t, StripBlocks(image, y, x) + rest, limit - |bits|))
       == Prefixed(bits', ReadBits(t, StripBlocks(image, y, x + 8) + rest, limit - |bits'|)))
  {
    var block := BlockAt(image, y, x);
    var bit := ReadBlock(t, block);
    ghost var after := StripBlocks(image, y, x + 8) + rest;
    assert [block] + after == StripBlocks(image, y, x) + rest;
    if bit.None? {
      assert ([block] + after)[0] == block;
      return bits, true;
    }
    ReadStep(t, bits, block, after, limit);
    bits' := bits + [bit.value];
    failed := false;
  }

  /**
   * The block loops of `extractMessage`: one bit per block in row-major
   * order until `limit` (`MESSAGE_LENGTH * 8`) bits are read; None where
   * a block read throws.
   */
  method ExtractBits(t: Transform, image: seq<seq<Pixel>>, limit: nat) returns (r: Option<string>)
    ensures r == ReadBits(t, ScanBlocks(image, 0), limit)
  {
    var bits := "";
    var y := 0;
    match ReadBits(t, ScanBlocks(image, 0), limit) {
      case None =>
      case Some(u) => assert bits + u == u;
    }
    while y < |image|
      invariant |bits| <= limit
      invariant ReadBits(t, ScanBlocks(image, 0), limit) == Prefixed(bits, ReadBits(t, ScanBlocks(image, y), limit - |bits|))
      decreases |image| - y
    {
      var failed;
      bits, failed := ReadStrip(t, image, y, bits, limit, ScanBlocks(image, y + 8));
      if failed {
        return None;
      }
      y := y + 8;
    }
    assert bits + "" == bits;
    return Some(bits);
  }

  /**
   * What `extractMessage(image)` returns: the bits read, regrouped into
   * characters, cut at the first marker and decoded; None where it
   * throws (a block read, or fewer than eight bits for `match`).
   */
  function ExtractedMessage(t: Transform, p: Platform, image: seq<seq<Pixel>>, messageLength: nat): Option<string>
  {
    match ReadBits(t, ScanBlocks(image, 0), messageLength * 8)
    case None => None
    case Some(bits) =>
      match HtmlFramedText(bits)
      case None => None
      case Some(text) => Some(DecodeString(p, text))
  }

  /** `extractMessage(image)`, `MESSAGE_LENGTH` being `messageLength`. */
  method ExtractMessage(t: Transform, p: Platform, image: seq<seq<Pixel>>, messageLength: nat) returns (r: Option<string>)
    ensures r == ExtractedMessage(t, p, image, messageLength)
  {
    var bits := ExtractBits(t, image, messageLength * 8);
    if bits.None? {
      return None;
    }
    var text := HtmlFramedText(bits.value);
    if text.None? {
      return None;
    }
    return Some(DecodeString(p, text.value));
  }

  // ---------------------------------------------------------------------
  // Inserting, then extracting
  // ---------------------------------------------------------------------

  /** On an image of whole blocks, slicing at (8·bi, 8·bj) gives block (bi, bj). */
  lemma BlockAtWhole<T>(image: seq<seq<T>>, bh: nat, bw: nat, bi: nat, bj: nat)
    requires IsRect(image, 8 * bh, 8 * bw) && bi < bh && bj < bw
    ensures HasBlock(image, bi, bj) && BlockAt(image, 8 * bi, 8 * bj) == BlockOf(image, bi, bj)
  {
    var b := BlockAt(image, 8 * bi, 8 * bj);
    assert forall i :: 0 <= i < 8 ==> b[i] == BlockOf(image, bi, bj)[i];
  }

  /** The strip at row 8·bi, from block bj on, is the rest of block row bi. */
  lemma {:induction false} StripWhole<T>(image: seq<seq<T>>, bh: nat, bw: nat, bi: nat, bj: nat)
    requires IsRect(image, 8 * bh, 8 * bw) && bi < bh && bj <= bw
    ensures forall j :: 0 <= j < bw ==> HasBlock(image, bi, j)
    ensures RowBlocks(image, bi, bj) + StripBlocks(image, 8 * bi, 8 * bj) == RowBlocks(image, bi, bw)
    decreases bw - bj
  {
    assert forall j :: 0 <= j < bw ==> HasBlock(image, bi, j);
    if bj < bw {
      BlockAtWhole(image, bh, bw, bi, bj);
      StripWhole(image, bh, bw, bi, bj + 1);
      assert RowBlocks(image, bi, bj + 1) == RowBlocks(image, bi, bj) + [BlockOf(image, bi, bj)];
      assert StripBlocks(image, 8 * bi, 8 * bj) == [BlockOf(image, bi, bj)] + StripBlocks(image, 8 * bi, 8 * (bj + 1));
    }
  }

  /** One block row more of `BlocksOf`, and one strip more of `ScanBlocks`. */
  lemma ScanStep<T>(image: seq<seq<T>>, bw: nat, bi: nat)
    requires |image| >= 8 * bi + 8 && forall i :: 0 <= i < |image| ==> |image[i]| >= 8 * bw
    ensures forall j :: 0 <= j < bw ==> HasBlock(image, bi, j)
    ensures BlocksOf(image, bw, bi + 1) == BlocksOf(image, bw, bi) + RowBlocks(image, bi, bw)
    ensures ScanBlocks(image, 8 * bi) == StripBlocks(image, 8 * bi, 0) + ScanBlocks(image, 8 * bi + 8)
  {
    assert forall j :: 0 <= j < bw ==> HasBlock(image, bi, j);
  }

  /** The strip at row 8·bi is block row bi. */
  lemma StripRow<T>(image: seq<seq<T>>, bh: nat, bw: nat, bi: nat)
    requires IsRect(image, 8 * bh, 8 * bw) && bi < bh
    ensures forall j :: 0 <= j < bw ==> HasBlock(image, bi, j)
    ensures StripBlocks(image, 8 * bi, 0) == RowBlocks(image, bi, bw)
  {
    StripWhole(image, bh, bw, bi, 0);
    assert RowBlocks(image, bi, 0) == [];
  }

  /** Moving `row` from the front of `whole` to the back of `done`. */
  lemma Regroup<U>(done: seq<U>, row: seq<U>, rest: seq<U>, whole: seq<U>, next: seq<U>)
    requires whole == row + rest && next == done + row
    ensures done + whole == next + rest
  {
  }

  /** Moving one strip of `ScanBlocks` over to `BlocksOf` keeps the sum. */
  lemma ScanMove<T>(image: seq<seq<T>>, bh: nat, bw: nat, bi: nat)
    requires IsRect(image, 8 * bh, 8 * bw) && bi < bh
    ensures BlocksOf(image, bw, bi) + ScanBlocks(image, 8 * bi) == BlocksOf(image, bw, bi + 1) + ScanBlocks(image, 8 * (bi + 1))
  {
    StripRow(image, bh, bw, bi);
    ScanStep(image, bw, bi);
    assert 8 * (bi + 1) == 8 * bi + 8;
    Regroup(BlocksOf(image, bw, bi), RowBlocks(image, bi, bw), ScanBlocks(image, 8 * bi + 8),
            ScanBlocks(image, 8 * bi), BlocksOf(image, bw, bi + 1));
  }

  /** The strips from row 8·bi on are the blocks of block rows bi.. . */
  lemma {:induction false} ScanWhole<T>(image: seq<seq<T>>, bh: nat, bw: nat, bi: nat)
    requires IsRect(image, 8 * bh, 8 * bw) && bi <= bh
    ensures BlocksOf(image, bw, bi) + ScanBlocks(image, 8 * bi) == BlocksOf(image, bw, bh)
    decreases bh - bi, 1
  {
    if bi < bh {
      ScanRest(image, bh, bw, bi);
    } else {
      ScanEnd(image, bh, bw);
    }
  }

  /** Block row bi moved over, then the rows after it. */
  lemma {:induction false} ScanRest<T>(image: seq<seq<T>>, bh: nat, bw: nat, bi: nat)
    requires IsRect(image, 8 * bh, 8 * bw) && bi < bh
    ensures BlocksOf(image, bw, bi) + ScanBlocks(image, 8 * bi) == BlocksOf(image, bw, bh)
    decreases bh - bi, 0
  {
    ScanMove(image, bh, bw, bi);
    ScanWhole(image, bh, bw, bi + 1);
  }

  /** Below the last block row there is nothing left to scan. */
  lemma ScanEnd<T>(image: seq<seq<T>>, bh: nat, bw: nat)
    requires IsRect(image, 8 * bh, 8 * bw)
    ensures BlocksOf(image, bw, bh) + ScanBlocks(image, 8 * bh) == BlocksOf(image, bw, bh)
  {
    assert ScanBlocks(image, 8 * bh) == [];
  }

  /** On an image of whole blocks, `extractMessage` visits exactly its blocks, in row-major order. */
  lemma ScanWholeBlocks<T>(image: seq<seq<T>>, h: nat, w: nat)
    requires Tiled(image, h, w)
    ensures ScanBlocks(image, 0) == BlocksOf(image, w / 8, h / 8)
  {
    assert 8 * (h / 8) == h && 8 * (w / 8) == w;
    ScanWhole(image, h / 8, w / 8, 0);
  }

  /**
   * The transform pair carries a mark through: the block embedding a bit
   * reads back as that bit.  (With floating point, clamping and rounding
   * this holds for most blocks, not all; the model takes it as given.)
   */
  ghost predicate Recovers(t: Transform)
  {
    forall block: seq<seq<Pixel>>, bit: char :: IsRect(block, 8, 8) && (bit == '0' || bit == '1') ==>
      BlockBit(t, EmbedBlock(t, block, bit)) == Some(bit)
  }

  /** Blocks that each yield a bit, the first |bits| of them the bits given, read back to those bits first. */
  lemma {:induction false} ReadBitsPrefix(t: Transform, blocks: seq<seq<seq<Pixel>>>, bits: string, limit: nat)
    requires |bits| <= |blocks| && |bits| <= limit
    requires forall k :: 0 <= k < |blocks| ==> BlockBit(t, blocks[k]).Some?
    requires forall k :: 0 <= k < |bits| ==> BlockBit(t, blocks[k]) == Some(bits[k])
    ensures ReadBits(t, blocks, limit).Some?
    ensures |bits| <= |ReadBits(t, blocks, limit).value| && ReadBits(t, blocks, limit).value[..|bits|] == bits
    decreases |blocks|
  {
    if limit > 0 && |blocks| > 0 {
      var b := BlockBit(t, blocks[0]).value;
      var tail := if |bits| > 0 then bits[1..] else "";
      ReadBitsPrefix(t, blocks[1..], tail, limit - 1);
      var u := ReadBits(t, blocks[1..], limit - 1).value;
      assert ReadBits(t, blocks, limit) == Some([b] + u);
      if |bits| > 0 {
        assert bits == [b] + tail;
        assert ([b] + u)[..|bits|] == [b] + u[..|tail|];
      }
    }
  }

  /** Block k of the inserted image yields a bit, and bit k itself for k below |bits|. */
  lemma InsertedBlockBit(t: Transform, image: seq<seq<Pixel>>, h: nat, w: nat, bits: string, k: nat)
    requires Recovers(t) && Tiled(image, h, w) && IsBitText(bits)
    requires k < FirstOfRow(w / 8, h / 8)
    ensures Tiled(InsertedImage(t, image, h, w, bits), h, w)
    ensures k < |BlocksOf(InsertedImage(t, image, h, w, bits), w / 8, h / 8)|
    ensures BlockBit(t, BlocksOf(InsertedImage(t, image, h, w, bits), w / 8, h / 8)[k]).Some?
    ensures k < |bits| ==> BlockBit(t, BlocksOf(InsertedImage(t, image, h, w, bits), w / 8, h / 8)[k]) == Some(bits[k])
  {
    var m := InsertedImage(t, image, h, w, bits);
    var bi, bj := BlockOfIndex(w / 8, h / 8, k);
    BlocksOfAt(m, w / 8, h / 8, bi, bj);
    InsertedBlocks(t, image, h, w, bits, bi, bj);
  }

  /** Reading the inserted image gives the inserted bits first, when they fit in its blocks and in the limit. */
  lemma InsertedReads(t: Transform, image: seq<seq<Pixel>>, h: nat, w: nat, bits: string, limit: nat)
    requires Recovers(t) && Tiled(image, h, w) && IsBitText(bits)
    requires |bits| <= (h / 8) * (w / 8) && |bits| <= limit
    ensures ReadBits(t, ScanBlocks(InsertedImage(t, image, h, w, bits), 0), limit).Some?
    ensures var read := ReadBits(t, ScanBlocks(InsertedImage(t, image, h, w, bits), 0), limit).value;
      |bits| <= |read| && read[..|bits|] == bits
  {
    var m := InsertedImage(t, image, h, w, bits);
    var blocks := BlocksOf(m, w / 8, h / 8);
    ScanWholeBlocks(m, h, w);
    FirstOfRowIsProduct(w / 8, h / 8);
    forall k | 0 <= k < |blocks|
      ensures BlockBit(t, blocks[k]).Some?
      ensures k < |bits| ==> BlockBit(t, blocks[k]) == Some(bits[k])
    {
      InsertedBlockBit(t, image, h, w, bits, k);
    }
    ReadBitsPrefix(t, blocks, bits, limit);
  }

  /** An image whose bits read back start with a message's framed bits extracts to that message. */
  lemma ExtractFramed(t: Transform, p: Platform, image: seq<seq<Pixel>>, messageLength: nat, message: string)
    requires Sound(p)
    requires ReadBits(t, ScanBlocks(image, 0), messageLength * 8).Some?
    requires var read := ReadBits(t, ScanBlocks(image, 0), messageLength * 8).value;
      |MessageBits(p, message)| <= |read| && read[..|MessageBits(p, message)|] == MessageBits(p, message)
    ensures ExtractedMessage(t, p, image, messageLength) == Some(message)
  {
    var bits := MessageBits(p, message);
    var read := ReadBits(t, ScanBlocks(image, 0), messageLength * 8).value;
    var extra := read[|bits|..];
    PrefixThenRest(read, bits);
    HtmlMessageRoundTrip(p, message, extra);
  }

  /**
   * Inserting a message into an image of whole blocks and extracting it
   * again gives the message back, when the framed bits fit in the blocks
   * and in the `MESSAGE_LENGTH * 8` bits read, and the transform carries
   * its marks through.
   */
  lemma InsertThenExtract(t: Transform, p: Platform, image: seq<seq<Pixel>>, h: nat, w: nat, message: string, messageLength: nat)
    requires Sound(p) && Recovers(t) && Tiled(image, h, w)
    requires |MessageBits(p, message)| <= (h / 8) * (w / 8)
    requires |MessageBits(p, message)| <= messageLength * 8
    ensures ExtractedMessage(t, p, InsertedImage(t, image, h, w, MessageBits(p, message)), messageLength) == Some(message)
  {
    MessageBitsShape(p, message);
    InsertedReads(t, image, h, w, MessageBits(p, message), messageLength * 8);
    ExtractFramed(t, p, InsertedImage(t, image, h, w, MessageBits(p, message)), messageLength, message);
  }
}
