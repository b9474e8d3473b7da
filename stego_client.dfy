/**
 * The block steganography of the command-line client
 * (`client/esteganography.js`): the image, a matrix of numbers, is cut
 * to whole 8×8 blocks; every coefficient of a block's discrete cosine
 * transform is rounded and carries one message bit in its lowest bit,
 * 64 bits to a block in row-major order; extraction reads the lowest
 * bits of the coefficients back, at most `MESSAGE_LENGTH` characters of
 * them.  The transform pair is floating point and is a parameter
 * (`Transform`, shared with the browser client).
 */
module StegoClient {
  import opened Js
  import opened Platform
  import opened Base65
  import opened Framing
  import opened Pixels
  import opened Blocks
  import opened StegoHtml

  /** `Esteganography.MESSAGE_LENGTH`: extraction reads at most this many characters of eight bits. */
  const MessageLength: nat := 256

  /** The matrices `imageDataToMatrix` produces: every row as long as the first. */
  predicate Rectangular<T>(image: seq<seq<T>>)
  {
    |image| > 0 ==> IsRect(image, |image|, |image[0]|)
  }

  // ---------------------------------------------------------------------
  // The lowest bit of a coefficient
  // ---------------------------------------------------------------------

  /** ToInt32 of a number, as the bitwise operators apply it: truncation toward zero, then 32-bit wrap-around. */
  function BitwiseInt(c: real): (v: int)
    ensures -Two31 <= v < Two31
  {
    ToInt32(if c >= 0.0 then c.Floor else -((-c).Floor))
  }

  /** `c & 1`, as a bit character. */
  function LowBit(c: real): (b: char)
    ensures b == '0' || b == '1'
    ensures b == '1' <==> BitwiseInt(c) % 2 == 1
  {
    if BitwiseInt(c) % 2 == 1 then '1' else '0'
  }

  /** `(Math.round(c) & ~1) | Number(bit)`: the rounded coefficient with its lowest bit replaced. */
  function SetLow(c: real, bit: char): real
  {
    var v := ToInt32(Round(c));
    (v - v % 2 + (if bit == '1' then 1 else 0)) as real
  }

  lemma ToInt32InRange(x: int)
    requires -Two31 <= x < Two31
    ensures ToInt32(x) == x
  {
    assert 0 <= x + Two31 < Two32;
  }

  /** The bit written into a coefficient is the bit read out of it. */
  lemma LowBitOfSet(c: real, bit: char)
    requires bit == '0' || bit == '1'
    ensures LowBit(SetLow(c, bit)) == bit
  {
    var v := ToInt32(Round(c));
    var s := v - v % 2 + (if bit == '1' then 1 else 0);
    assert (s as real).Floor == s;
    assert (-(s as real)).Floor == -s;
    ToInt32InRange(s);
    assert BitwiseInt(s as real) == s;
  }

  // ---------------------------------------------------------------------
  // Writing the bits into a block
  // ---------------------------------------------------------------------

  /** A row of coefficients after bits `start`, `start + 1`, … went into its cells, while bits remain. */
  function MarkedRow(row: seq<real>, bits: string, start: nat): (r: seq<real>)
    ensures |r| == |row|
    ensures forall y :: 0 <= y < |row| && start + y >= |bits| ==> r[y] == row[y]
  {
    seq(|row|, y requires 0 <= y < |row| => if start + y < |bits| then SetLow(row[y], bits[start + y]) else row[y])
  }

  /** The coefficients of a block after bits `from`, `from + 1`, … went into them in row-major order. */
  function Marked(d: Square8, bits: string, from: nat): Square8
  {
    seq(8, x requires 0 <= x < 8 => MarkedRow(d[x], bits, from + 8 * x))
  }

  /** The 64 bits read from a block's coefficients, in row-major order. */
  function CoefficientBits(d: Square8): (s: string)
    ensures |s| == 64
  {
    seq(64, i requires 0 <= i < 64 => LowBit(d[i / 8][i % 8]))
  }

  lemma CoefficientAt(d: Square8, x: nat, y: nat)
    requires x < 8 && y < 8
    ensures CoefficientBits(d)[8 * x + y] == LowBit(d[x][y])
  {
    assert (8 * x + y) / 8 == x && (8 * x + y) % 8 == y;
  }

  /** Every bit written into a block reads back from it. */
  lemma MarkedBits(d: Square8, bits: string, from: nat, j: nat)
    requires IsBitText(bits) && j < 64 && from + j < |bits|
    ensures CoefficientBits(Marked(d, bits, from))[j] == bits[from + j]
  {
    var x, y := j / 8, j % 8;
    assert j == 8 * x + y;
    CoefficientAt(Marked(d, bits, from), x, y);
    LowBitOfSet(d[x][y], bits[from + j]);
  }

  /** The inner loop: one row of coefficients, `index` counting the bits written so far. */
  method MarkRow(row: seq<real>, bits: string, index: nat) returns (r: seq<real>, next: nat)
    requires index <= |bits|
    ensures r == MarkedRow(row, bits, index)
    ensures next == Min(index + |row|, |bits|)
  {
    r, next := row, index;
    for y := 0 to |row|
      invariant next == Min(index + y, |bits|)
      invariant |r| == |row|
      invariant forall z :: 0 <= z < |row| ==> r[z] == if z < y then MarkedRow(row, bits, index)[z] else row[z]
    {
      if next < |bits| {
        r := r[y := SetLow(r[y], bits[next])];
        next := next + 1;
      }
    }
    assert forall z :: 0 <= z < |row| ==> r[z] == MarkedRow(row, bits, index)[z];
  }

  lemma MarkedRowSaturated(row: seq<real>, bits: string, start: nat, other: nat)
    requires start >= |bits| && other >= |bits|
    ensures MarkedRow(row, bits, start) == MarkedRow(row, bits, other)
  {
    assert forall y :: 0 <= y < |row| ==> MarkedRow(row, bits, start)[y] == row[y] == MarkedRow(row, bits, other)[y];
  }

  /** The body of the outer loop: row `x` of the block, `next` counting the bits written so far. */
  method MarkBlockRow(d: Square8, bits: string, from: nat, x: nat, row: seq<real>, next: nat)
    returns (row': seq<real>, next': nat)
    requires from <= |bits| && x < 8
    requires row == d[x] && next == Min(from + 8 * x, |bits|)
    ensures row' == Marked(d, bits, from)[x]
    ensures next' == Min(from + 8 * (x + 1), |bits|)
  {
    assert |row| == 8;
    row', next' := MarkRow(row, bits, next);
    if from + 8 * x > |bits| {
      MarkedRowSaturated(d[x], bits, |bits|, from + 8 * x);
    }
  }

  /** The two loops over a block's coefficients, `from` counting the bits written before. */
  method MarkBlock(d: Square8, bits: string, from: nat) returns (m: Square8, next: nat)
    requires from <= |bits|
    ensures m == Marked(d, bits, from)
    ensures next == Min(from + 64, |bits|)
  {
    ghost var target := Marked(d, bits, from);
    var rows: seq<seq<real>> := d;
    next := from;
    for x := 0 to 8
      invariant next == Min(from + 8 * x, |bits|)
      invariant |rows| == 8
      invariant forall z :: 0 <= z < 8 ==> rows[z] == if z < x then target[z] else d[z]
    {
      var row;
      row, next := MarkBlockRow(d, bits, from, x, rows[x], next);
      rows := rows[x := row];
    }
    assert forall z :: 0 <= z < 8 ==> rows[z] == target[z];
    m := rows;
  }

  /**
   * Whether `insertMessage` gets to block k for `n` message bits: the
   * first block always, a later one while bits remain after the 64 of
   * every block before it.
   */
  predicate Reached(k: nat, n: nat)
  {
    k == 0 || 64 * k < n
  }

  /** A block the loop reaches: transformed, the bits from `from` on written into it, transformed back. */
  function Rewritten(t: Transform, block: Square8, bits: string, from: nat): Square8
  {
    t.idct(Marked(t.dct(block), bits, from))
  }

  /** The blocks with the message bits written into them, every block the loop reaches transformed back. */
  function Embedded(t: Transform, blocks: seq<seq<seq<real>>>, bits: string): (r: seq<seq<seq<real>>>)
    requires AllBlocks8(blocks)
    ensures |r| == |blocks| && AllBlocks8(r)
    ensures forall k :: 0 <= k < |blocks| && !Reached(k, |bits|) ==> r[k] == blocks[k]
  {
    seq(|blocks|, k requires 0 <= k < |blocks| =>
      if Reached(k, |bits|) then Rewritten(t, blocks[k], bits, 64 * k) else blocks[k])
  }

  // ---------------------------------------------------------------------
  // insertMessage
  // ---------------------------------------------------------------------

  /** `divideIntoBlocks(croppedImage)`, zero being the number 0. */
  function Divided(c: seq<seq<real>>): (blocks: seq<seq<seq<real>>>)
    requires IsImage(c)
    ensures AllBlocks8(blocks)
    ensures |blocks| == FirstOfRow(CeilBlocks(|c[0]|), CeilBlocks(|c|))
  {
    AllBlocksOf8(Padded(c, 0.0), CeilBlocks(|c[0]|), CeilBlocks(|c|));
    BlocksOf(Padded(c, 0.0), CeilBlocks(|c[0]|), CeilBlocks(|c|))
  }

  /** The crop keeps a rectangular image's shape rectangular, so it is an image when it has rows. */
  lemma CroppedImage<T>(image: seq<seq<T>>)
    requires Rectangular(image) && |image| > 0
    ensures Crop(image).Some?
    ensures IsRect(Crop(image).value, |image| / 8 * 8, |image[0]| / 8 * 8)
    ensures |Crop(image).value| > 0 ==> IsImage(Crop(image).value) && |Crop(image).value[0]| == |image[0]| / 8 * 8
  {
    CropShape(image, |image|, |image[0]|);
  }

  /**
   * `insertMessage` as written: the loop transforms every block it
   * reaches and writes the bits into the coefficients, but assigns the
   * transformed block to its own loop variable only, so the blocks it
   * reconstructs the image from are those it cut.  None where a throw
   * ends it: no rows to crop, or no rows left after the crop.
   */
  function InsertedMessageAsWritten(image: seq<seq<real>>): Option<seq<seq<real>>>
    requires Rectangular(image)
  {
    if |image| == 0 then None
    else
      CroppedImage(image);
      var c := Crop(image).value;
      if |c| == 0 then None
      else Some(CellsOf(Divided(c), |c|, |c[0]|, 0.0))
  }

  /** `insertMessage` with the transformed blocks stored back into `blocks`. */
  function InsertedMessage(t: Transform, p: Platform, image: seq<seq<real>>, message: string): Option<seq<seq<real>>>
    requires Rectangular(image)
  {
    if |image| == 0 then None
    else
      CroppedImage(image);
      var c := Crop(image).value;
      if |c| == 0 then None
      else Some(CellsOf(Embedded(t, Divided(c), MessageBits(p, message)), |c|, |c[0]|, 0.0))
  }

  /** The insertion as written hands back the cropped image, whatever the message. */
  lemma InsertAsWrittenIsCrop(image: seq<seq<real>>)
    requires Rectangular(image)
    ensures |image| >= 8 ==> InsertedMessageAsWritten(image) == Crop(image)
    ensures |image| < 8 ==> InsertedMessageAsWritten(image).None?
  {
    if |image| >= 8 {
      CroppedImage(image);
      ReconstructDivided(Crop(image).value, 0.0);
    }
  }

  /**
   * The block loop of `insertMessage`, stopping after the block in which
   * the bits run out; `store` says whether the transformed block is
   * stored back (the corrected loop) or only bound to the loop variable
   * (the loop as written).
   */
  method EmbedBlocks(t: Transform, blocks: seq<seq<seq<real>>>, bits: string, store: bool) returns (r: seq<seq<seq<real>>>)
    requires AllBlocks8(blocks)
    ensures r == if store then Embedded(t, blocks, bits) else blocks
  {
    r := blocks;
    var bitIndex := 0;
    var k := 0;
    while k < |blocks|
      invariant 0 <= k <= |blocks| && |r| == |blocks|
      invariant bitIndex == Min(64 * k, |bits|)
      invariant k > 0 ==> 64 * k < |bits|
      invariant forall j :: 0 <= j < |blocks| ==> r[j] == if store && j < k then Embedded(t, blocks, bits)[j] else blocks[j]
    {
      var block: Square8 := blocks[k];
      var dctBlock := t.dct(block);
      var marked, next := MarkBlock(dctBlock, bits, bitIndex);
      block := t.idct(marked);
      if store {
        r := r[k := block];
      }
      bitIndex := next;
      k := k + 1;
      if bitIndex >= |bits| {
        break;
      }
    }
    assert forall j :: 0 <= j < |blocks| ==> r[j] == if store then Embedded(t, blocks, bits)[j] else blocks[j];
  }

  /** The shared body of both versions of `insertMessage`. */
  method InsertWith(t: Transform, p: Platform, image: seq<seq<real>>, message: string, store: bool) returns (r: Option<seq<seq<real>>>)
    requires Rectangular(image)
    ensures r == if store then InsertedMessage(t, p, image, message) else InsertedMessageAsWritten(image)
  {
    if |image| == 0 {
      return None;
    }
    CroppedImage(image);
    var croppedImage := Crop(image).value;
    var divided := DivideIntoBlocks(croppedImage, 0.0);
    if divided.None? {
      return None;
    }
    var blocks := divided.value;
    AllBlocksOf8(Padded(croppedImage, 0.0), CeilBlocks(|croppedImage[0]|), CeilBlocks(|croppedImage|));
    var messageBits := MessageBits(p, message);
    var written := EmbedBlocks(t, blocks, messageBits, store);
    r := ReconstructImageFromBlocks(written, |croppedImage|, |croppedImage[0]|, 0.0);
  }

  /** `insertMessage(image, message)` with its blocks stored back. */
  method InsertMessage(t: Transform, p: Platform, image: seq<seq<real>>, message: string) returns (r: Option<seq<seq<real>>>)
    requires Rectangular(image)
    ensures r == InsertedMessage(t, p, image, message)
  {
    r := InsertWith(t, p, image, message, true);
  }

  /** `insertMessage(image, message)` as written. */
  method InsertMessageAsWritten(t: Transform, p: Platform, image: seq<seq<real>>, message: string) returns (r: Option<seq<seq<real>>>)
    requires Rectangular(image)
    ensures r == InsertedMessageAsWritten(image)
  {
    r := InsertWith(t, p, image, message, false);
  }

  // ---------------------------------------------------------------------
  // extractMessage
  // ---------------------------------------------------------------------

  /** The 64 bits a block carries: the lowest bits of its coefficients. */
  function BlockBits(t: Transform, block: seq<seq<real>>): (s: string)
    requires IsRect(block, 8, 8)
    ensures |s| == 64
  {
    CoefficientBits(t.dct(block))
  }

  /** The bits of all the blocks, block after block. */
  function AllBits(t: Transform, blocks: seq<seq<seq<real>>>): (s: string)
    requires AllBlocks8(blocks)
    ensures |s| == 64 * |blocks|
  {
    if |blocks| == 0 then ""
    else
      var last := |blocks| - 1;
      assert AllBlocks8(blocks[..last]) by {
        assert forall k :: 0 <= k < last ==> blocks[..last][k] == blocks[k];
      }
      AllBits(t, blocks[..last]) + BlockBits(t, blocks[last])
  }

  /** The bits `extractMessage` collects: the first `limit` bits of the blocks, or all of them when there are fewer. */
  function ExtractedBits(t: Transform, blocks: seq<seq<seq<real>>>, limit: nat): (s: string)
    requires AllBlocks8(blocks)
    ensures |s| == Min(limit, 64 * |blocks|)
  {
    AllBits(t, blocks)[..Min(limit, 64 * |blocks|)]
  }

  lemma AllBlocksPrefix(blocks: seq<seq<seq<real>>>, k: nat)
    requires AllBlocks8(blocks) && k <= |blocks|
    ensures AllBlocks8(blocks[..k])
  {
    assert forall j :: 0 <= j < k ==> blocks[..k][j] == blocks[j];
  }

  /** The bits of the first k blocks start the bits of all of them. */
  lemma {:induction false} AllBitsPrefix(t: Transform, blocks: seq<seq<seq<real>>>, k: nat)
    requires AllBlocks8(blocks) && k <= |blocks|
    ensures AllBlocks8(blocks[..k])
    ensures AllBits(t, blocks)[..64 * k] == AllBits(t, blocks[..k])
    decreases |blocks|
  {
    AllBlocksPrefix(blocks, k);
    if k < |blocks| {
      var last := |blocks| - 1;
      AllBlocksPrefix(blocks, last);
      AllBitsPrefix(t, blocks[..last], k);
      assert blocks[..last][..k] == blocks[..k];
    } else {
      assert blocks[..k] == blocks;
    }
  }

  /** Bit j of block k is bit 64·k + j of all the blocks. */
  lemma {:induction false} AllBitsAt(t: Transform, blocks: seq<seq<seq<real>>>, k: nat, j: nat)
    requires AllBlocks8(blocks) && k < |blocks| && j < 64
    ensures AllBits(t, blocks)[64 * k + j] == BlockBits(t, blocks[k])[j]
    decreases |blocks|
  {
    var last := |blocks| - 1;
    if k < last {
      AllBlocksPrefix(blocks, last);
      AllBitsAt(t, blocks[..last], k, j);
    }
  }

  /** The two inner loops of `extractMessage`: one block's bits pushed while fewer than `limit` were read. */
  method ReadBlockBits(t: Transform, block: seq<seq<real>>, bits: string, limit: nat) returns (r: string)
    requires IsRect(block, 8, 8)
    ensures r == bits + BlockBits(t, block)[..Room(|bits|, limit, 64)]
  {
    var dctBlock := t.dct(block);
    ghost var all := CoefficientBits(dctBlock);
    r := bits;
    for x := 0 to 8
      invariant r == bits + all[..Room(|bits|, limit, 8 * x)]
    {
      for y := 0 to 8
        invariant r == bits + all[..Room(|bits|, limit, 8 * x + y)]
      {
        if |r| < limit {
          CoefficientAt(dctBlock, x, y);
          assert all[..8 * x + y + 1] == all[..8 * x + y] + [all[8 * x + y]];
          r := r + [LowBit(dctBlock[x][y])];
        }
      }
    }
  }

  /** How many of `size` bits fit after `n` of at most `limit`. */
  function Room(n: nat, limit: nat, size: nat): (m: nat)
    ensures m <= size && n + m <= Max(n, limit)
    ensures n < limit ==> m == Min(size, limit - n)
  {
    if n >= limit then 0 else Min(size, limit - n)
  }

  function Max(a: int, b: int): int { if a >= b then a else b }

  lemma ReadStep(t: Transform, blocks: seq<seq<seq<real>>>, k: nat, limit: nat)
    requires AllBlocks8(blocks) && k < |blocks|
    requires Min(limit, 64 * k) < limit
    ensures AllBlocks8(blocks[..k]) && AllBlocks8(blocks[..k + 1])
    ensures AllBits(t, blocks[..k])[..Min(limit, 64 * k)] + BlockBits(t, blocks[k])[..Room(Min(limit, 64 * k), limit, 64)]
      == AllBits(t, blocks[..k + 1])[..Min(limit, 64 * (k + 1))]
  {
    AllBlocksPrefix(blocks, k);
    AllBlocksPrefix(blocks, k + 1);
    assert blocks[..k + 1][..k] == blocks[..k];
    var front, b := AllBits(t, blocks[..k]), BlockBits(t, blocks[k]);
    assert AllBits(t, blocks[..k + 1]) == front + b;
    var n := Min(limit, 64 * (k + 1));
    assert (front + b)[..n] == front + b[..n - 64 * k];
  }

  /** The block loop of `extractMessage`, stopping after the block in which `limit` bits were reached. */
  method ExtractBits(t: Transform, blocks: seq<seq<seq<real>>>, limit: nat) returns (bits: string)
    requires AllBlocks8(blocks)
    ensures bits == ExtractedBits(t, blocks, limit)
  {
    bits := "";
    var k := 0;
    while k < |blocks|
      invariant 0 <= k <= |blocks|
      invariant AllBlocks8(blocks[..k])
      invariant bits == AllBits(t, blocks[..k])[..Min(limit, 64 * k)]
    {
      if |bits| >= limit {
        break;
      }
      ReadStep(t, blocks, k, limit);
      bits := ReadBlockBits(t, blocks[k], bits, limit);
      k := k + 1;
      if |bits| >= limit {
        break;
      }
    }
    ExtractedPrefix(t, blocks, k, limit);
  }

  /** Once `limit` bits are read, or every block is, the later blocks add nothing. */
  lemma ExtractedPrefix(t: Transform, blocks: seq<seq<seq<real>>>, k: nat, limit: nat)
    requires AllBlocks8(blocks) && k <= |blocks|
    requires k == |blocks| || limit <= 64 * k
    ensures AllBlocks8(blocks[..k])
    ensures ExtractedBits(t, blocks, limit) == AllBits(t, blocks[..k])[..Min(limit, 64 * k)]
  {
    AllBitsPrefix(t, blocks, k);
    var all := AllBits(t, blocks);
    var n := Min(limit, 64 * k);
    assert n == Min(limit, 64 * |blocks|);
    assert all[..64 * k][..n] == all[..n];
  }

  /** One step of the conversion loop: the group at i, then the groups after it. */
  lemma SliceGroupsAt(bits: string, i: nat)
    requires i < |bits|
    ensures SliceGroups(bits[i..]) == [bits[i .. Min(i + 8, |bits|)]] + SliceGroups(bits[Min(i + 8, |bits|)..])
  {
    var rest := bits[i..];
    if |rest| > 8 {
      assert rest[..8] == bits[i .. i + 8] && rest[8..] == bits[i + 8..];
    } else {
      assert rest == bits[i .. |bits|] && bits[|bits|..] == "";
    }
  }

  /** The conversion loop: `String.fromCharCode(parseInt(bits.slice(i, i + 8), 2))` for i = 0, 8, …, joined. */
  method BitsToText(bits: string) returns (text: string)
    ensures text == GroupsText(SliceGroups(bits))
  {
    text := "";
    var i := 0;
    while i < |bits|
      invariant i <= |bits| + 7
      invariant text + GroupsText(SliceGroups(bits[Min(i, |bits|)..])) == GroupsText(SliceGroups(bits))
      decreases |bits| - i
    {
      var group := bits[i .. Min(i + 8, |bits|)];
      SliceGroupsAt(bits, i);
      GroupsTextFront(group, SliceGroups(bits[Min(i + 8, |bits|)..]));
      text := text + [GroupChar(group)];
      i := i + 8;
    }
    assert bits[|bits|..] == "";
  }

  /**
   * The Base65 text `extractMessage` recovers from a rectangular image:
   * the low bits of the blocks of its crop, at most `MESSAGE_LENGTH`
   * characters, cut at the first marker; None where a throw ends it.
   */
  function ExtractedText(t: Transform, image: seq<seq<real>>): Option<string>
    requires Rectangular(image)
  {
    if |image| == 0 then None
    else
      CroppedImage(image);
      var c := Crop(image).value;
      if |c| == 0 then None
      else Some(ClientFramedText(ExtractedBits(t, Divided(c), MessageLength * 8)))
  }

  /** `extractMessage(image)` as written: its decoder throws on any text with a character of the alphabet. */
  function ExtractedMessageAsWritten(t: Transform, p: Platform, image: seq<seq<real>>): Option<string>
    requires Rectangular(image)
  {
    match ExtractedText(t, image)
    case None => None
    case Some(text) => DecodeStringAsWritten(p, text)
  }

  /** `extractMessage(image)` with the decoder of `client-html/esteganography.js`. */
  function ExtractedMessage(t: Transform, p: Platform, image: seq<seq<real>>): Option<string>
    requires Rectangular(image)
  {
    match ExtractedText(t, image)
    case None => None
    case Some(text) => Some(DecodeString(p, text))
  }

  /** `extractMessage(image)`, line by line; `corrected` picks the decoder. */
  method ExtractWith(t: Transform, p: Platform, image: seq<seq<real>>, corrected: bool) returns (r: Option<string>)
    requires Rectangular(image)
    ensures r == if corrected then ExtractedMessage(t, p, image) else ExtractedMessageAsWritten(t, p, image)
  {
    if |image| == 0 {
      return None;
    }
    CroppedImage(image);
    var croppedImage := Crop(image).value;
    var divided := DivideIntoBlocks(croppedImage, 0.0);
    if divided.None? {
      return None;
    }
    AllBlocksOf8(Padded(croppedImage, 0.0), CeilBlocks(|croppedImage[0]|), CeilBlocks(|croppedImage|));
    var binaryMessage := ExtractBits(t, divided.value, MessageLength * 8);
    var chars := BitsToText(binaryMessage);
    var messageBase65 := CutAtEnd(chars);
    if corrected {
      r := Some(DecodeString(p, messageBase65));
    } else {
      r := DecodeStringAsWritten(p, messageBase65);
    }
  }

  /** `extractMessage(image)` as written. */
  method ExtractMessageAsWritten(t: Transform, p: Platform, image: seq<seq<real>>) returns (r: Option<string>)
    requires Rectangular(image)
    ensures r == ExtractedMessageAsWritten(t, p, image)
  {
    r := ExtractWith(t, p, image, false);
  }

  /** `extractMessage(image)` with the corrected decoder. */
  method ExtractMessage(t: Transform, p: Platform, image: seq<seq<real>>) returns (r: Option<string>)
    requires Rectangular(image)
    ensures r == ExtractedMessage(t, p, image)
  {
    r := ExtractWith(t, p, image, true);
  }

  // ---------------------------------------------------------------------
  // Inserting, then extracting
  // ---------------------------------------------------------------------

  /** The inverse transform is undone by the transform: exact arithmetic. */
  ghost predicate Inverts(t: Transform)
  {
    forall d: Square8 :: t.dct(t.idct(d)) == d
  }

  /** Bit i of the embedded blocks is message bit i. */
  lemma EmbeddedBit(t: Transform, blocks: seq<seq<seq<real>>>, bits: string, i: nat)
    requires Inverts(t) && AllBlocks8(blocks) && IsBitText(bits)
    requires i < |bits| && i < 64 * |blocks|
    ensures AllBits(t, Embedded(t, blocks, bits))[i] == bits[i]
  {
    var e := Embedded(t, blocks, bits);
    var k, j := i / 64, i % 64;
    assert i == 64 * k + j && k < |blocks|;
    AllBitsAt(t, e, k, j);
    assert Reached(k, |bits|);
    var d: Square8 := t.dct(blocks[k]);
    assert BlockBits(t, e[k]) == CoefficientBits(Marked(d, bits, 64 * k));
    MarkedBits(d, bits, 64 * k, j);
  }

  /** The bits read from the embedded blocks start with the message bits, when they fit in the blocks and under the limit. */
  lemma EmbeddedPrefix(t: Transform, blocks: seq<seq<seq<real>>>, bits: string, limit: nat)
    requires Inverts(t) && AllBlocks8(blocks) && IsBitText(bits)
    requires |bits| <= 64 * |blocks| && |bits| <= limit
    ensures |bits| <= |ExtractedBits(t, Embedded(t, blocks, bits), limit)|
    ensures ExtractedBits(t, Embedded(t, blocks, bits), limit)[..|bits|] == bits
  {
    var read := ExtractedBits(t, Embedded(t, blocks, bits), limit);
    forall i | 0 <= i < |bits|
      ensures read[i] == bits[i]
    {
      EmbeddedBit(t, blocks, bits, i);
    }
  }

  /** An image of whole blocks is its own crop. */
  lemma CropWhole(c: seq<seq<real>>, bh: nat, bw: nat)
    requires IsRect(c, 8 * bh, 8 * bw) && bh > 0
    ensures Crop(c) == Some(c)
  {
    CropShape(c, 8 * bh, 8 * bw);
    assert 8 * bh / 8 * 8 == 8 * bh && 8 * bw / 8 * 8 == 8 * bw;
    var d := Crop(c).value;
    forall y | 0 <= y < 8 * bh
      ensures d[y] == c[y]
    {
      assert d[y] == c[y][..8 * bw];
    }
    assert d == c;
  }

  /** Extracting from the image reconstructed from whole blocks reads the bits of those blocks. */
  lemma ExtractReconstructed(t: Transform, blocks: seq<seq<seq<real>>>, bh: nat, bw: nat)
    requires AllBlocks8(blocks) && bh > 0 && bw > 0 && |blocks| == FirstOfRow(bw, bh)
    ensures Rectangular(CellsOf(blocks, 8 * bh, 8 * bw, 0.0))
    ensures ExtractedText(t, CellsOf(blocks, 8 * bh, 8 * bw, 0.0)) == Some(ClientFramedText(ExtractedBits(t, blocks, MessageLength * 8)))
  {
    var c := CellsOf(blocks, 8 * bh, 8 * bw, 0.0);
    CropWhole(c, bh, bw);
    DivideReconstructed(blocks, bh, bw, 0.0);
    assert Divided(c) == blocks;
  }

  /** The crop of an image that has room for a message has whole blocks in both directions. */
  lemma CropCapacity(image: seq<seq<real>>, n: nat)
    requires Rectangular(image) && |image| > 0 && n > 0
    requires n <= 64 * FirstOfRow(|image[0]| / 8, |image| / 8)
    ensures |image| / 8 > 0 && |image[0]| / 8 > 0
    ensures IsRect(Crop(image).value, 8 * (|image| / 8), 8 * (|image[0]| / 8))
  {
    FirstOfRowIsProduct(|image[0]| / 8, |image| / 8);
    CroppedImage(image);
  }

  /** The blocks the corrected insertion reconstructs its result from, on an image with room for the message. */
  lemma InsertedLayout(t: Transform, p: Platform, image: seq<seq<real>>, message: string)
      returns (blocks: seq<seq<seq<real>>>, bh: nat, bw: nat)
    requires Rectangular(image) && |image| > 0
    requires |MessageBits(p, message)| <= 64 * FirstOfRow(|image[0]| / 8, |image| / 8)
    ensures bh > 0 && bw > 0 && AllBlocks8(blocks) && |blocks| == FirstOfRow(bw, bh) == bh * bw
    ensures |MessageBits(p, message)| <= 64 * |blocks|
    ensures InsertedMessage(t, p, image, message) == Some(CellsOf(Embedded(t, blocks, MessageBits(p, message)), 8 * bh, 8 * bw, 0.0))
  {
    MessageBitsShape(p, message);
    bh, bw := |image| / 8, |image[0]| / 8;
    CropCapacity(image, |MessageBits(p, message)|);
    var c := Crop(image).value;
    assert CeilBlocks(8 * bh) == bh && CeilBlocks(8 * bw) == bw;
    blocks := Divided(c);
    FirstOfRowIsProduct(bw, bh);
  }

  /** The text extracted from the corrected insertion's result is the framing of the message bits and of what follows them. */
  lemma InsertedText(t: Transform, p: Platform, image: seq<seq<real>>, message: string) returns (extra: string)
    requires Inverts(t) && Rectangular(image) && |image| > 0
    requires |MessageBits(p, message)| <= 64 * FirstOfRow(|image[0]| / 8, |image| / 8)
    requires |MessageBits(p, message)| <= MessageLength * 8
    ensures InsertedMessage(t, p, image, message).Some?
    ensures Rectangular(InsertedMessage(t, p, image, message).value)
    ensures ExtractedText(t, InsertedMessage(t, p, image, message).value) == Some(ClientFramedText(MessageBits(p, message) + extra))
  {
    var bits := MessageBits(p, message);
    MessageBitsShape(p, message);
    var blocks, bh, bw := InsertedLayout(t, p, image, message);
    var e := Embedded(t, blocks, bits);
    ExtractReconstructed(t, e, bh, bw);
    EmbeddedPrefix(t, blocks, bits, MessageLength * 8);
    var read := ExtractedBits(t, e, MessageLength * 8);
    extra := read[|bits|..];
    PrefixThenRest(read, bits);
  }

  /**
   * With exact arithmetic, extracting from what the corrected insertion
   * makes of a rectangular image gives the message back (with the
   * corrected decoder), when its bits fit in the 64 coefficients of
   * every block and in the `MESSAGE_LENGTH * 8` bits read.
   */
  lemma InsertThenExtract(t: Transform, p: Platform, image: seq<seq<real>>, message: string)
    requires Sound(p) && Inverts(t) && Rectangular(image) && |image| > 0
    requires |MessageBits(p, message)| <= 64 * FirstOfRow(|image[0]| / 8, |image| / 8)
    requires |MessageBits(p, message)| <= MessageLength * 8
    ensures InsertedMessage(t, p, image, message).Some?
    ensures Rectangular(InsertedMessage(t, p, image, message).value)
    ensures ExtractedMessage(t, p, InsertedMessage(t, p, image, message).value) == Some(message)
  {
    var extra := InsertedText(t, p, image, message);
    ClientMessageRoundTrip(p, message, extra);
  }

  /** With the decoder as written, nothing the corrected insertion makes of a non-empty message comes back. */
  lemma InsertThenExtractAsWritten(t: Transform, p: Platform, image: seq<seq<real>>, message: string)
    requires Inverts(t) && Rectangular(image) && |image| > 0
    requires |MessageBits(p, message)| <= 64 * FirstOfRow(|image[0]| / 8, |image| / 8)
    requires |MessageBits(p, message)| <= MessageLength * 8
    requires |p.utf8Encode(message)| > 0
    ensures InsertedMessage(t, p, image, message).Some?
    ensures Rectangular(InsertedMessage(t, p, image, message).value)
    ensures ExtractedMessageAsWritten(t, p, InsertedMessage(t, p, image, message).value).None?
  {
    var extra := InsertedText(t, p, image, message);
    ClientMessageAsWritten(p, message, extra);
  }
}
