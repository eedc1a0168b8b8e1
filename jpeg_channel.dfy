/**
 * One colour channel of the JPEG stage: the channel is cut into 8x8 blocks
 * in raster order (padding the right and bottom edges with zeros), each block
 * goes through the forward transform (DCT and quantization, a parameter
 * here), the scan and the symbol coder; the decoder rebuilds blocks from the
 * symbols and writes the inverse transform of each back into the channel.
 */
module JpegChannel {
  import opened Common
  import opened JpegScan
  import opened JpegRle

  /** A block of samples, indexed `g[i][j]` like a Java `double[8][8]`. */
  type RealBlock = g: seq<seq<real>> | IsBlock(g) witness seq(8, _ => seq(8, _ => 0.0))

  /** The number of blocks covering `n` samples: `ceil(n / 8.0)`. */
  function Blocks(n: nat): nat
  {
    (n + 7) / 8
  }

  lemma BlockCount(n: nat, b: nat)
    ensures 8 * b < n <==> b < Blocks(n)
  {
  }

  // ---------------------------------------------------------------------
  // The block grid, for any per-block scan
  // ---------------------------------------------------------------------

  /** The scan array of each block (row `a`, column `b` of the grid). */
  type Scanner = f: (nat, nat) -> seq<int> | forall a: nat, b: nat :: |f(a, b)| == 64
    witness (a: nat, b: nat) => seq(64, _ => 0)

  /**
   * The symbols of the blocks from block (blockY, blockX) on, in raster order:
   * each block's symbols with its DC taken relative to the block before.
   */
  function GridSymbols(scanAt: Scanner, yb: nat, xb: nat, blockY: nat, blockX: nat, prevDC: int): seq<Short>
    decreases yb - blockY, xb - blockX
  {
    if blockY >= yb then []
    else if blockX >= xb then GridSymbols(scanAt, yb, xb, blockY + 1, 0, prevDC)
    else BlockSymbols(scanAt(blockY, blockX), prevDC) + GridSymbols(scanAt, yb, xb, blockY, blockX + 1, scanAt(blockY, blockX)[0])
  }

  /** Every DC difference and AC value of the blocks from (blockY, blockX) on fits in a `short`. */
  predicate GridFits(scanAt: Scanner, yb: nat, xb: nat, blockY: nat, blockX: nat, prevDC: int)
    decreases yb - blockY, xb - blockX
  {
    if blockY >= yb then true
    else if blockX >= xb then GridFits(scanAt, yb, xb, blockY + 1, 0, prevDC)
    else BlockFits(scanAt(blockY, blockX), prevDC) && GridFits(scanAt, yb, xb, blockY, blockX + 1, scanAt(blockY, blockX)[0])
  }

  /** The same blocks keyed by their coordinates. */
  function GridMap(scanAt: Scanner, yb: nat, xb: nat, blockY: nat, blockX: nat): (m: map<(int, int), seq<int>>)
    ensures Scans64(m)
    decreases yb - blockY, xb - blockX
  {
    if blockY >= yb then map[]
    else if blockX >= xb then GridMap(scanAt, yb, xb, blockY + 1, 0)
    else GridMap(scanAt, yb, xb, blockY, blockX + 1)[(blockY, blockX) := scanAt(blockY, blockX)]
  }

  /** Block `k` comes at or after block (blockY, blockX) in raster order. */
  predicate After(k: (int, int), blockY: int, blockX: int)
  {
    k.0 > blockY || (k.0 == blockY && k.1 >= blockX)
  }

  predicate Scans64(m: map<(int, int), seq<int>>)
  {
    forall k :: k in m ==> |m[k]| == 64
  }

  /** The map holds exactly the grid's blocks at or after (blockY, blockX), each with its scan array. */
  lemma {:induction false} GridMapHolds(scanAt: Scanner, yb: nat, xb: nat, blockY: nat, blockX: nat, k: (int, int))
    ensures k in GridMap(scanAt, yb, xb, blockY, blockX) <==> 0 <= k.0 < yb && 0 <= k.1 < xb && After(k, blockY, blockX)
    ensures k in GridMap(scanAt, yb, xb, blockY, blockX) ==> GridMap(scanAt, yb, xb, blockY, blockX)[k] == scanAt(k.0, k.1)
    decreases yb - blockY, xb - blockX
  {
    if blockY >= yb {
    } else if blockX >= xb {
      GridMapHolds(scanAt, yb, xb, blockY + 1, 0, k);
    } else {
      GridMapHolds(scanAt, yb, xb, blockY, blockX + 1, k);
    }
  }

  /**
   * The block loop of the decoder from block (blockY, blockX) on: each block
   * of the `yb` by `xb` grid takes its symbols in turn; when the symbols run
   * out the rest of the row is skipped (and so every later row). The result
   * maps each decoded block's coordinates to its scan array.
   */
  function DecodeFrom(rle: seq<Short>, blockY: nat, blockX: nat, yb: nat, xb: nat, prevDC: int): (r: Result<map<(int, int), seq<int>>>)
    ensures r.Ok? ==> Scans64(r.value)
    ensures r.Ok? ==> forall k :: k in r.value ==> After(k, blockY, blockX) && 0 <= k.0 < yb && 0 <= k.1 < xb
    decreases yb - blockY, xb - blockX
  {
    if blockY >= yb then Ok(map[])
    else if blockX >= xb || rle == [] then DecodeFrom(rle, blockY + 1, 0, yb, xb, prevDC)
    else match DecodeBlock(rle, prevDC)
      case Err(e) => Err(e)
      case Ok((zz, rest)) =>
        match DecodeFrom(rest, blockY, blockX + 1, yb, xb, zz[0])
        case Err(e) => Err(e)
        case Ok(m) => Ok(m[(blockY, blockX) := zz])
  }

  /** A decoded block followed by the decode of the rest adds that block to the rest's map. */
  lemma DecodeStep(rle: seq<Short>, blockY: nat, blockX: nat, yb: nat, xb: nat, prevDC: int,
                   zz: seq<int>, rest: seq<Short>, m: map<(int, int), seq<int>>)
    requires blockY < yb && blockX < xb && rle != [] && |zz| == 64
    requires DecodeBlock(rle, prevDC) == Ok((zz, rest))
    requires DecodeFrom(rest, blockY, blockX + 1, yb, xb, zz[0]) == Ok(m)
    ensures DecodeFrom(rle, blockY, blockX, yb, xb, prevDC) == Ok(m[(blockY, blockX) := zz])
  {
  }

  /**
   * The symbols of the blocks from (blockY, blockX) on decode, on the same
   * grid, to exactly those blocks' scan arrays.
   */
  lemma {:induction false} GridRoundTrip(scanAt: Scanner, yb: nat, xb: nat, blockY: nat, blockX: nat, prevDC: int)
    requires GridFits(scanAt, yb, xb, blockY, blockX, prevDC)
    ensures DecodeFrom(GridSymbols(scanAt, yb, xb, blockY, blockX, prevDC), blockY, blockX, yb, xb, prevDC)
            == Ok(GridMap(scanAt, yb, xb, blockY, blockX))
    decreases yb - blockY, xb - blockX
  {
    if blockY >= yb {
    } else if blockX >= xb {
      GridRoundTrip(scanAt, yb, xb, blockY + 1, 0, prevDC);
    } else {
      var s := scanAt(blockY, blockX);
      var rest := GridSymbols(scanAt, yb, xb, blockY, blockX + 1, s[0]);
      GridRoundTrip(scanAt, yb, xb, blockY, blockX + 1, s[0]);
      BlockRoundTrip(s, prevDC, rest);
      DecodeStep(BlockSymbols(s, prevDC) + rest, blockY, blockX, yb, xb, prevDC,
                 s, rest, GridMap(scanAt, yb, xb, blockY, blockX + 1));
    }
  }

  // ---------------------------------------------------------------------
  // The blocks of a channel
  // ---------------------------------------------------------------------

  /** Every row of the samples `g` holds `width` samples. */
  predicate HasWidth(g: seq<seq<real>>, width: nat)
  {
    forall i :: 0 <= i < |g| ==> |g[i]| == width
  }

  /** The width of the samples: the first row's length, as the Java reads `channel[0].length`. */
  function Width(g: seq<seq<real>>): nat
  {
    if |g| == 0 then 0 else |g[0]|
  }

  /** The samples of a channel as rows, like the Java `double[height][width]`: all rows equally long. */
  predicate Rectangular(g: seq<seq<real>>)
  {
    HasWidth(g, Width(g))
  }

  /** The block whose top-left sample is (y, x), zero outside the samples. */
  function Padded(g: seq<seq<real>>, y: nat, x: nat): RealBlock
  {
    seq(8, i requires 0 <= i < 8 =>
      seq(8, j requires 0 <= j < 8 => if y + i < |g| && x + j < |g[y + i]| then g[y + i][x + j] else 0.0))
  }

  /** The scan array of block (a, b) of the samples after the forward transform. */
  function BlockScan(g: seq<seq<real>>, forward: RealBlock -> IntBlock, a: nat, b: nat): (r: seq<int>)
    ensures |r| == 64
  {
    Scan(forward(Padded(g, 8 * a, 8 * b)))
  }

  /** The scan array of each block of the samples after the forward transform. */
  function BlockScanner(g: seq<seq<real>>, forward: RealBlock -> IntBlock): Scanner
  {
    (a: nat, b: nat) => BlockScan(g, forward, a, b)
  }

  lemma ScannerScans(g: seq<seq<real>>, forward: RealBlock -> IntBlock)
    ensures forall a: nat, b: nat {:trigger BlockScan(g, forward, a, b)} :: BlockScanner(g, forward)(a, b) == BlockScan(g, forward, a, b)
  {
  }

  /** The whole channel's decode for a `height` by `width` channel. */
  function Decoded(rle: seq<Short>, height: nat, width: nat): Result<map<(int, int), seq<int>>>
  {
    DecodeFrom(rle, 0, 0, Blocks(height), Blocks(width), 0)
  }

  /** A decoded sample: the inverse transform of its block, or 0.0 when its block was not decoded. */
  function Pixel(m: map<(int, int), seq<int>>, inverse: IntBlock -> RealBlock, yy: nat, xx: nat): real
    requires Scans64(m)
  {
    var key := (yy / 8, xx / 8);
    if key in m then inverse(Unscan(m[key]))[yy % 8][xx % 8] else 0.0
  }

  /** Sample (yy, xx) after the forward and inverse transforms of its padded block. */
  function Reconstructed(g: seq<seq<real>>, forward: RealBlock -> IntBlock, inverse: IntBlock -> RealBlock, yy: nat, xx: nat): real
  {
    inverse(forward(Padded(g, yy / 8 * 8, xx / 8 * 8)))[yy % 8][xx % 8]
  }

  /** The symbols the channel coder produces for the rows `g`, `width` samples each. */
  function ChannelCode(g: seq<seq<real>>, width: nat, forward: RealBlock -> IntBlock): seq<Short>
  {
    GridSymbols(BlockScanner(g, forward), Blocks(|g|), Blocks(width), 0, 0, 0)
  }

  lemma PixelOfGrid(g: seq<seq<real>>, width: nat, forward: RealBlock -> IntBlock, inverse: IntBlock -> RealBlock, yy: nat, xx: nat)
    requires yy < |g| && xx < width
    ensures Pixel(GridMap(BlockScanner(g, forward), Blocks(|g|), Blocks(width), 0, 0), inverse, yy, xx)
            == Reconstructed(g, forward, inverse, yy, xx)
  {
    BlockCount(|g|, yy / 8);
    BlockCount(width, xx / 8);
    GridMapHolds(BlockScanner(g, forward), Blocks(|g|), Blocks(width), 0, 0, (yy / 8, xx / 8));
    UnscanScan(forward(Padded(g, 8 * (yy / 8), 8 * (xx / 8))));
  }

  /**
   * Decoding a channel's own symbols at its own size gives every sample as the
   * inverse transform of the forward transform of its padded block: the
   * symbol coding and the scan lose nothing.
   */
  lemma ChannelPixels(g: seq<seq<real>>, width: nat, forward: RealBlock -> IntBlock, inverse: IntBlock -> RealBlock)
    requires GridFits(BlockScanner(g, forward), Blocks(|g|), Blocks(width), 0, 0, 0)
    ensures var d := Decoded(ChannelCode(g, width, forward), |g|, width);
      d.Ok? && forall yy: nat, xx: nat :: yy < |g| && xx < width ==>
        Pixel(d.value, inverse, yy, xx) == Reconstructed(g, forward, inverse, yy, xx)
  {
    GridRoundTrip(BlockScanner(g, forward), Blocks(|g|), Blocks(width), 0, 0, 0);
    forall yy: nat, xx: nat | yy < |g| && xx < width
      ensures Pixel(GridMap(BlockScanner(g, forward), Blocks(|g|), Blocks(width), 0, 0), inverse, yy, xx)
              == Reconstructed(g, forward, inverse, yy, xx)
    {
      PixelOfGrid(g, width, forward, inverse, yy, xx);
    }
  }

  // ---------------------------------------------------------------------
  // The encoder
  // ---------------------------------------------------------------------

  /** An 8x8 array of samples as a value. */
  function RealGrid(a: array2<real>): RealBlock
    requires a.Length0 == 8 && a.Length1 == 8
    reads a
  {
    seq(8, i requires 0 <= i < 8 reads a => seq(8, j requires 0 <= j < 8 reads a => a[i, j]))
  }

  /** Copy block (y, x) of the channel into a fresh 8x8 array, zero outside the channel. */
  method PadBlock(channel: seq<seq<real>>, width: nat, y: nat, x: nat) returns (block: array2<real>)
    requires HasWidth(channel, width)
    ensures fresh(block) && block.Length0 == 8 && block.Length1 == 8
    ensures RealGrid(block) == Padded(channel, y, x)
  {
    ghost var want := Padded(channel, y, x);
    block := new real[8, 8]((_, _) => 0.0);
    for i := 0 to 8
      invariant forall i', j :: 0 <= i' < i && 0 <= j < 8 ==> block[i', j] == want[i'][j]
    {
      for j := 0 to 8
        invariant forall i', j' :: 0 <= i' < 8 && 0 <= j' < 8 && (i' < i || (i' == i && j' < j)) ==> block[i', j'] == want[i'][j']
      {
        var yy, xx := y + i, x + j;
        block[i, j] := if yy < |channel| && xx < width then channel[yy][xx] else 0.0;
      }
    }
    forall i | 0 <= i < 8
      ensures RealGrid(block)[i] == want[i]
    {
    }
  }

  /** One block's symbols from its scan array: the DC difference, the AC pairs, the end marker. */
  method EmitBlock(zigzag: array<int>, prevDC: int) returns (symbols: seq<Short>)
    requires zigzag.Length == 64
    ensures symbols == BlockSymbols(zigzag[..], prevDC)
  {
    ghost var zz := zigzag[..];
    symbols := [ToShort(zigzag[0] - prevDC)];
    var zeroCount := 0;
    for i := 1 to 64
      invariant zeroCount < i
      invariant symbols + AcSymbols(zz, i, zeroCount) == [ToShort(zz[0] - prevDC)] + AcSymbols(zz, 1, 0)
    {
      if zigzag[i] == 0 {
        zeroCount := zeroCount + 1;
      } else {
        AppendAssoc(symbols, [ToShort(zeroCount), ToShort(zigzag[i])], AcSymbols(zz, i + 1, 0));
        symbols := symbols + [ToShort(zeroCount), ToShort(zigzag[i])];
        zeroCount := 0;
      }
    }
    symbols := symbols + [BlockEnd];
  }

  /** The loop body of `compressChannel`: pad, transform, scan and code block (blockY, blockX). */
  method EncodeBlock(channel: seq<seq<real>>, width: nat, forward: RealBlock -> IntBlock, ghost scanAt: Scanner,
                     y: nat, x: nat, prevDC: int, ghost blockY: nat, ghost blockX: nat)
    returns (symbols: seq<Short>, dc: int)
    requires HasWidth(channel, width) && (forall a: nat, b: nat {:trigger BlockScan(channel, forward, a, b)} :: scanAt(a, b) == BlockScan(channel, forward, a, b)) && y == 8 * blockY && x == 8 * blockX
    ensures symbols == BlockSymbols(scanAt(blockY, blockX), prevDC) && dc == scanAt(blockY, blockX)[0]
  {
    assert scanAt(blockY, blockX) == BlockScan(channel, forward, blockY, blockX);
    var block := PadBlock(channel, width, y, x);
    var quant := forward(RealGrid(block));
    var zigzag := ZigzagScan(quant);
    symbols := EmitBlock(zigzag, prevDC);
    dc := zigzag[0];
  }

  /** The x loop of `compressChannel`: the symbols of block row `blockY`, each DC relative to the block before. */
  method EncodeRow(channel: seq<seq<real>>, width: nat, forward: RealBlock -> IntBlock, ghost scanAt: Scanner,
                   y: nat, prevDC: int, ghost blockY: nat)
    returns (symbols: seq<Short>, dc: int)
    requires HasWidth(channel, width) && (forall a: nat, b: nat {:trigger BlockScan(channel, forward, a, b)} :: scanAt(a, b) == BlockScan(channel, forward, a, b)) && y == 8 * blockY && y < |channel|
    ensures var yb, xb := Blocks(|channel|), Blocks(width);
      symbols + GridSymbols(scanAt, yb, xb, blockY + 1, 0, dc)
      == GridSymbols(scanAt, yb, xb, blockY, 0, prevDC)
  {
    ghost var yb, xb := Blocks(|channel|), Blocks(width);
    BlockCount(|channel|, blockY);
    symbols := [];
    dc := prevDC;
    var x := 0;
    ghost var blockX := 0;
    while x < width
      invariant x == 8 * blockX && blockX <= xb
      invariant symbols + GridSymbols(scanAt, yb, xb, blockY, blockX, dc)
                == GridSymbols(scanAt, yb, xb, blockY, 0, prevDC)
      decreases width - x
    {
      BlockCount(width, blockX);
      var block, next := EncodeBlock(channel, width, forward, scanAt, y, x, dc, blockY, blockX);
      AppendAssoc(symbols, block, GridSymbols(scanAt, yb, xb, blockY, blockX + 1, next));
      symbols := symbols + block;
      dc := next;
      x := x + 8;
      blockX := blockX + 1;
    }
    BlockCount(width, blockX);
  }

  /** The y loop of `compressChannel`: the symbols of all block rows in order, the DC carried across rows. */
  method EncodeRows(channel: seq<seq<real>>, width: nat, forward: RealBlock -> IntBlock, ghost scanAt: Scanner)
    returns (rleData: seq<Short>)
    requires HasWidth(channel, width) && (forall a: nat, b: nat {:trigger BlockScan(channel, forward, a, b)} :: scanAt(a, b) == BlockScan(channel, forward, a, b))
    ensures rleData == GridSymbols(scanAt, Blocks(|channel|), Blocks(width), 0, 0, 0)
  {
    ghost var yb, xb := Blocks(|channel|), Blocks(width);
    rleData := [];
    var prevDC := 0;
    var y := 0;
    ghost var blockY := 0;
    while y < |channel|
      invariant y == 8 * blockY && blockY <= yb
      invariant rleData + GridSymbols(scanAt, yb, xb, blockY, 0, prevDC)
                == GridSymbols(scanAt, yb, xb, 0, 0, 0)
      decreases |channel| - y
    {
      BlockCount(|channel|, blockY);
      var row, dc := EncodeRow(channel, width, forward, scanAt, y, prevDC, blockY);
      AppendAssoc(rleData, row, GridSymbols(scanAt, yb, xb, blockY + 1, 0, dc));
      rleData := rleData + row;
      prevDC := dc;
      y := y + 8;
      blockY := blockY + 1;
    }
    BlockCount(|channel|, blockY);
  }

  /**
   * `compressChannel` up to the entropy coder: the symbols of all blocks in
   * raster order. The width `channel[0].length` is read once; it is the same
   * on every pass.
   */
  method CompressChannel(channel: seq<seq<real>>, forward: RealBlock -> IntBlock) returns (rleData: seq<Short>)
    requires Rectangular(channel)
    ensures rleData == ChannelCode(channel, Width(channel), forward)
  {
    var width := if |channel| == 0 then 0 else |channel[0]|;
    ScannerScans(channel, forward);
    rleData := EncodeRows(channel, width, forward, BlockScanner(channel, forward));
  }

  // ---------------------------------------------------------------------
  // The decoder
  // ---------------------------------------------------------------------

  /** One (run, value) pair of the AC loop: zeros over the run, then the value. */
  lemma AcPair(rle: seq<Short>, zz: seq<int>, zi: nat)
    requires |zz| == 64 && 1 <= zi <= 64 && |rle| >= 2 && rle[0] != BlockEnd
    ensures var skipped := if rle[0] <= 0 then zi else if zi + rle[0] < 64 then zi + rle[0] else 64;
      var zeroed := zz[..zi] + Zeros(skipped - zi) + zz[skipped..];
      DecodeAc(rle, zz, zi) ==
        if skipped < 64 then DecodeAc(rle[2..], zeroed[skipped := rle[1]], skipped + 1)
        else DecodeAc(rle[2..], zeroed, skipped)
  {
  }

  /** The zero-run loop: write zeros from `zi` for `run` positions or up to the end of the block. */
  method SkipRun(zigzag: array<int>, zi: nat, run: int) returns (next: nat)
    requires zigzag.Length == 64 && 1 <= zi <= 64
    modifies zigzag
    ensures next == if run <= 0 then zi else if zi + run < 64 then zi + run else 64
    ensures zigzag[..] == old(zigzag[..zi]) + Zeros(next - zi) + old(zigzag[next..])
  {
    next := zi;
    var z := 0;
    while z < run && next < 64
      invariant zi <= next <= 64 && next - zi == z
      invariant run <= 0 ==> z == 0
      invariant run > 0 ==> z <= run
      invariant zigzag[..] == old(zigzag[..zi]) + Zeros(next - zi) + old(zigzag[next..])
    {
      zigzag[next] := 0;
      next := next + 1;
      z := z + 1;
    }
  }

  /** One (run, value) pair of the AC loop: skip the run, then store the value if the block has room. */
  method StorePair(zigzag: array<int>, zi: nat, run: Short, coef: Short, ghost rest: seq<Short>) returns (next: nat)
    requires zigzag.Length == 64 && 1 <= zi <= 64 && |rest| >= 2 && rest[0] == run != BlockEnd && rest[1] == coef
    modifies zigzag
    ensures 1 <= next <= 64
    ensures DecodeAc(rest, old(zigzag[..]), zi) == DecodeAc(rest[2..], zigzag[..], next)
  {
    AcPair(rest, zigzag[..], zi);
    next := SkipRun(zigzag, zi, run);
    if next < 64 {
      zigzag[next] := coef;
      next := next + 1;
    }
  }

  /**
   * The block decoder's read of one block from position `start`: the DC
   * difference, then (run, value) pairs until the end marker or the end of the
   * symbols. A run with no value after it fails, as the list read throws.
   */
  method DecodeBlockAt(rle: seq<Short>, start: nat, prevDC: int) returns (r: Result<(array<int>, nat)>)
    requires start < |rle|
    ensures var d := DecodeBlock(rle[start..], prevDC);
      (r.Err? <==> d.Err?) &&
      (r.Ok? ==> fresh(r.value.0) && r.value.1 <= |rle| &&
                 r.value.0[..] == d.value.0 && rle[r.value.1..] == d.value.1)
  {
    var zigzag := new int[64](_ => 0);
    var index := start;
    var dcDiff := rle[index];
    index := index + 1;
    zigzag[0] := prevDC + dcDiff;
    assert zigzag[..] == Zeros(64)[0 := prevDC + rle[start..][0]];
    assert rle[start..][1..] == rle[index..];
    var zi := 1;
    while index < |rle|
      invariant start < index <= |rle| && 1 <= zi <= 64
      invariant DecodeAc(rle[index..], zigzag[..], zi) == DecodeBlock(rle[start..], prevDC)
      decreases |rle| - index
    {
      var val := rle[index];
      if val == BlockEnd {
        return Ok((zigzag, index + 1));
      }
      if index + 1 >= |rle| {
        return Err(CorruptStream);
      }
      var coef := rle[index + 1];
      assert rle[index..][2..] == rle[index + 2..];
      zi := StorePair(zigzag, zi, val, coef, rle[index..]);
      index := index + 2;
    }
    return Ok((zigzag, index));
  }

  /** An 8x8 array of coefficients as a value. */
  function IntGrid(a: array2<int>): IntBlock
    requires a.Length0 == 8 && a.Length1 == 8
    reads a
  {
    seq(8, x requires 0 <= x < 8 reads a => seq(8, y requires 0 <= y < 8 reads a => a[x, y]))
  }

  lemma GridOfCells(cells: array2<int>, a: seq<int>)
    requires cells.Length0 == 8 && cells.Length1 == 8 && |a| == 64
    requires forall x, y :: 0 <= x < 8 && 0 <= y < 8 ==> cells[x, y] == Unscan(a)[x][y]
    ensures IntGrid(cells) == Unscan(a)
  {
    forall x | 0 <= x < 8
      ensures IntGrid(cells)[x] == Unscan(a)[x]
    {
    }
  }

  /** Write the decoded block (blockY, blockX) into the channel, skipping samples outside it. */
  method WriteBlock(channel: array2<real>, block: RealBlock, blockY: nat, blockX: nat)
    modifies channel
    ensures forall yy, xx :: 0 <= yy < channel.Length0 && 0 <= xx < channel.Length1 ==>
      channel[yy, xx] == if yy / 8 == blockY && xx / 8 == blockX then block[yy % 8][xx % 8] else old(channel[yy, xx])
  {
    for i := 0 to 8
      invariant forall yy, xx :: 0 <= yy < channel.Length0 && 0 <= xx < channel.Length1 ==>
        channel[yy, xx] == if yy / 8 == blockY && xx / 8 == blockX && yy % 8 < i then block[yy % 8][xx % 8] else old(channel[yy, xx])
    {
      for j := 0 to 8
        invariant forall yy, xx :: 0 <= yy < channel.Length0 && 0 <= xx < channel.Length1 ==>
          channel[yy, xx] == if yy / 8 == blockY && xx / 8 == blockX && (yy % 8 < i || (yy % 8 == i && xx % 8 < j))
            then block[yy % 8][xx % 8] else old(channel[yy, xx])
      {
        var yy := blockY * 8 + i;
        var xx := blockX * 8 + j;
        if yy < channel.Length0 && xx < channel.Length1 {
          channel[yy, xx] := block[i][j];
        }
      }
    }
  }

  /** The decode of the blocks from (blockY, blockX) on, merged with the blocks already decoded. */
  function Merge(r: Result<map<(int, int), seq<int>>>, done: map<(int, int), seq<int>>): Result<map<(int, int), seq<int>>>
  {
    if r.Err? then r else Ok(r.value + done)
  }

  /** Decoding one more block moves it from the rest of the decode to the blocks already decoded. */
  lemma MergeStep(rle: seq<Short>, blockY: nat, blockX: nat, yb: nat, xb: nat, prevDC: int,
                  zz: seq<int>, rest: seq<Short>, done: map<(int, int), seq<int>>)
    requires blockY < yb && blockX < xb && rle != [] && |zz| == 64
    requires DecodeBlock(rle, prevDC) == Ok((zz, rest))
    requires forall k :: k in done ==> !After(k, blockY, blockX)
    ensures Merge(DecodeFrom(rle, blockY, blockX, yb, xb, prevDC), done)
            == Merge(DecodeFrom(rest, blockY, blockX + 1, yb, xb, zz[0]), done[(blockY, blockX) := zz])
  {
    var r := DecodeFrom(rest, blockY, blockX + 1, yb, xb, zz[0]);
    if r.Ok? {
      assert r.value[(blockY, blockX) := zz] + done == r.value + done[(blockY, blockX) := zz];
    }
  }

  lemma PixelStep(done: map<(int, int), seq<int>>, zz: seq<int>, inverse: IntBlock -> RealBlock,
                  blockY: nat, blockX: nat, yy: nat, xx: nat)
    requires Scans64(done) && |zz| == 64
    ensures Scans64(done[(blockY, blockX) := zz])
    ensures Pixel(done[(blockY, blockX) := zz], inverse, yy, xx) ==
      if yy / 8 == blockY && xx / 8 == blockX then inverse(Unscan(zz))[yy % 8][xx % 8] else Pixel(done, inverse, yy, xx)
  {
  }

  /** Every sample of the channel is its block's decoded sample, or zero. */
  predicate Shows(channel: array2<real>, done: map<(int, int), seq<int>>, inverse: IntBlock -> RealBlock)
    requires Scans64(done)
    reads channel
  {
    forall yy, xx :: 0 <= yy < channel.Length0 && 0 <= xx < channel.Length1 ==> channel[yy, xx] == Pixel(done, inverse, yy, xx)
  }

  /** Decode the block at `index` into block (blockY, blockX) of the channel. */
  method DecodeInto(channel: array2<real>, rle: seq<Short>, index: nat, prevDC: int, inverse: IntBlock -> RealBlock,
                    blockY: nat, blockX: nat, yb: nat, xb: nat, ghost done: map<(int, int), seq<int>>)
    returns (r: Result<(nat, int)>, ghost done': map<(int, int), seq<int>>)
    requires index < |rle| && blockY < yb && blockX < xb
    requires Scans64(done) && forall k :: k in done ==> !After(k, blockY, blockX)
    requires Shows(channel, done, inverse)
    modifies channel
    ensures r.Err? ==> DecodeFrom(rle[index..], blockY, blockX, yb, xb, prevDC).Err?
    ensures r.Ok? ==> r.value.0 <= |rle| && Scans64(done') && (forall k :: k in done' ==> !After(k, blockY, blockX + 1))
    ensures r.Ok? ==> Shows(channel, done', inverse)
    ensures r.Ok? ==> Merge(DecodeFrom(rle[index..], blockY, blockX, yb, xb, prevDC), done)
                      == Merge(DecodeFrom(rle[r.value.0..], blockY, blockX + 1, yb, xb, r.value.1), done')
  {
    var block := DecodeBlockAt(rle, index, prevDC);
    if block.Err? {
      return Err(CorruptStream), done;
    }
    var (zigzag, next) := block.value;
    var cells := InverseZigzag(zigzag);
    GridOfCells(cells, zigzag[..]);
    WriteBlock(channel, inverse(IntGrid(cells)), blockY, blockX);
    done' := done[(blockY, blockX) := zigzag[..]];
    MergeStep(rle[index..], blockY, blockX, yb, xb, prevDC, zigzag[..], rle[next..], done);
    forall yy, xx | 0 <= yy < channel.Length0 && 0 <= xx < channel.Length1
      ensures channel[yy, xx] == Pixel(done', inverse, yy, xx)
    {
      PixelStep(done, zigzag[..], inverse, blockY, blockX, yy, xx);
    }
    r := Ok((next, zigzag[0]));
  }

  /**
   * The bx loop of `decompressChannel` for block row `blockY`: decode blocks
   * into the channel until the row ends or the symbols run out.
   */
  method DecodeRow(channel: array2<real>, rle: seq<Short>, index: nat, prevDC: int, inverse: IntBlock -> RealBlock,
                   blockY: nat, yb: nat, xb: nat, ghost done: map<(int, int), seq<int>>)
    returns (r: Result<(nat, int)>, ghost done': map<(int, int), seq<int>>)
    requires index <= |rle| && blockY < yb
    requires Scans64(done) && forall k :: k in done ==> !After(k, blockY, 0)
    requires Shows(channel, done, inverse)
    modifies channel
    ensures r.Err? ==> Merge(DecodeFrom(rle[index..], blockY, 0, yb, xb, prevDC), done).Err?
    ensures r.Ok? ==> r.value.0 <= |rle| && Scans64(done') && (forall k :: k in done' ==> !After(k, blockY + 1, 0))
    ensures r.Ok? ==> Shows(channel, done', inverse)
    ensures r.Ok? ==> Merge(DecodeFrom(rle[index..], blockY, 0, yb, xb, prevDC), done)
                      == Merge(DecodeFrom(rle[r.value.0..], blockY + 1, 0, yb, xb, r.value.1), done')
  {
    ghost var whole := Merge(DecodeFrom(rle[index..], blockY, 0, yb, xb, prevDC), done);
    var at: nat, dc: int := index, prevDC;
    done' := done;
    var blockX := 0;
    while blockX < xb && at < |rle|
      invariant blockX <= xb && at <= |rle|
      invariant Scans64(done') && forall k :: k in done' ==> !After(k, blockY, blockX)
      invariant Merge(DecodeFrom(rle[at..], blockY, blockX, yb, xb, dc), done') == whole
      invariant Shows(channel, done', inverse)
      decreases xb - blockX
    {
      var step;
      step, done' := DecodeInto(channel, rle, at, dc, inverse, blockY, blockX, yb, xb, done');
      if step.Err? {
        return Err(CorruptStream), done';
      }
      at, dc := step.value.0, step.value.1;
      blockX := blockX + 1;
    }
    assert DecodeFrom(rle[at..], blockY, blockX, yb, xb, dc) == DecodeFrom(rle[at..], blockY + 1, 0, yb, xb, dc);
    r := Ok((at, dc));
  }

  /**
   * `decompressChannel` after the entropy decoder: allocate the channel, then
   * decode the blocks in raster order and write each one's inverse transform.
   * A negative size fails, as allocating the Java array throws.
   */
  method DecompressChannel(rle: seq<Short>, height: int, width: int, inverse: IntBlock -> RealBlock)
    returns (r: Result<array2<real>>)
    ensures height < 0 || width < 0 ==> r == Err(CorruptStream)
    ensures height >= 0 && width >= 0 ==> (r.Ok? <==> Decoded(rle, height, width).Ok?)
    ensures r.Ok? ==> height >= 0 && width >= 0 && fresh(r.value)
    ensures r.Ok? ==> r.value.Length0 == height && r.value.Length1 == width
    ensures r.Ok? ==> forall yy, xx :: 0 <= yy < height && 0 <= xx < width ==>
      r.value[yy, xx] == Pixel(Decoded(rle, height, width).value, inverse, yy, xx)
  {
    if height < 0 || width < 0 {
      return Err(CorruptStream);
    }
    var channel := new real[height, width]((_, _) => 0.0);
    var xBlocks := Blocks(width);
    var yBlocks := Blocks(height);
    ghost var whole := Decoded(rle, height, width);
    var index: nat := 0;
    var prevDC := 0;
    ghost var done: map<(int, int), seq<int>> := map[];
    assert rle[0..] == rle;
    if whole.Ok? {
      assert whole.value + done == whole.value;
    }
    for blockY := 0 to yBlocks
      invariant index <= |rle|
      invariant Scans64(done) && forall k :: k in done ==> !After(k, blockY, 0)
      invariant Merge(DecodeFrom(rle[index..], blockY, 0, yBlocks, xBlocks, prevDC), done) == whole
      invariant Shows(channel, done, inverse)
    {
      var step;
      step, done := DecodeRow(channel, rle, index, prevDC, inverse, blockY, yBlocks, xBlocks, done);
      if step.Err? {
        return Err(CorruptStream);
      }
      index, prevDC := step.value.0, step.value.1;
    }
    return Ok(channel);
  }
}
