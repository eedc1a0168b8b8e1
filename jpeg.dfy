/**
 * The integer parts of the JPEG compressor around the channel codec: the
 * quality setting, the scaled quantization tables, the sample clamp, chroma
 * upsampling, and one channel's trip through the block coder and the
 * bit-packed Huffman codec.
 */
module Jpeg {
  import opened Common
  import opened JpegScan
  import opened JpegChannel
  import HuffmanTree
  import HuffmanCodec

  /** The constructor's clamp of the requested quality into [1, 100]. */
  function QualityOf(q: int): (r: int)
    ensures 1 <= r <= 100
    ensures 1 <= q <= 100 ==> r == q
    ensures q < 1 ==> r == 1
    ensures q > 100 ==> r == 100
  {
    if q < 1 then 1 else if q > 100 then 100 else q
  }

  /** Table K.1 of ITU-T T.81: the luminance quantization table, indexed `[row][column]`. */
  const BaseQY: seq<seq<int>> := [
    [16, 11, 10, 16, 24, 40, 51, 61], [12, 12, 14, 19, 26, 58, 60, 55],
    [14, 13, 16, 24, 40, 57, 69, 56], [14, 17, 22, 29, 51, 87, 80, 62],
    [18, 22, 37, 56, 68, 109, 103, 77], [24, 35, 55, 64, 81, 104, 113, 92],
    [49, 64, 78, 87, 103, 121, 120, 101], [72, 92, 95, 98, 112, 100, 103, 99]]

  /** Table K.2 of ITU-T T.81: the chrominance quantization table. */
  const BaseQC: seq<seq<int>> := [
    [17, 18, 24, 47, 99, 99, 99, 99], [18, 21, 26, 66, 99, 99, 99, 99],
    [24, 26, 56, 99, 99, 99, 99, 99], [47, 66, 99, 99, 99, 99, 99, 99],
    [99, 99, 99, 99, 99, 99, 99, 99], [99, 99, 99, 99, 99, 99, 99, 99],
    [99, 99, 99, 99, 99, 99, 99, 99], [99, 99, 99, 99, 99, 99, 99, 99]]

  /** Both base tables are 8x8 with every entry a valid quantizer step in [1, 255]. */
  lemma BaseTables()
    ensures IsBlock(BaseQY) && IsBlock(BaseQC)
    ensures forall i, j :: 0 <= i < 8 && 0 <= j < 8 ==> 1 <= BaseQY[i][j] <= 255 && 1 <= BaseQC[i][j] <= 255
  {
  }

  /** The quality scale factor in percent: 5000 / quality below 50, 200 - 2 * quality from 50 on. */
  function ScaleOf(quality: int): (r: real)
    requires 1 <= quality <= 100
    ensures r >= 0.0
  {
    if quality < 50 then 5000.0 / quality as real else (200 - 2 * quality) as real
  }

  /** `Math.round`: the nearest integer, halves rounded up. */
  function Round(x: real): (r: int)
    ensures r as real <= x + 0.5 < r as real + 1.0
  {
    (x + 0.5).Floor
  }

  /**
   * A scaled table entry as written: `(entry * scale + 50) / 100` in floating
   * point, then `Math.round`, so the value is rounded twice.
   */
  function WrittenEntry(quality: int, entry: int): int
    requires 1 <= quality <= 100
  {
    Round((entry as real * ScaleOf(quality) + 50.0) / 100.0)
  }

  /** A scaled table entry rounded once: `entry * scale / 100` to the nearest integer. */
  function IntendedEntry(quality: int, entry: int): int
    requires 1 <= quality <= 100
  {
    Round(entry as real * ScaleOf(quality) / 100.0)
  }

  /**
   * The double rounding raises an entry by one exactly when the scaled value's
   * fraction is below one half, and leaves it alone otherwise; at quality 50
   * every entry is raised.
   */
  lemma WrittenOvershoots(quality: int, entry: int)
    requires 1 <= quality <= 100
    ensures var x := entry as real * ScaleOf(quality) / 100.0;
      (WrittenEntry(quality, entry) == IntendedEntry(quality, entry) + 1 <==> x - x.Floor as real < 0.5) &&
      (WrittenEntry(quality, entry) == IntendedEntry(quality, entry) <==> x - x.Floor as real >= 0.5)
    ensures quality == 50 ==> WrittenEntry(quality, entry) == entry + 1
  {
    var x := entry as real * ScaleOf(quality) / 100.0;
    assert (entry as real * ScaleOf(quality) + 50.0) / 100.0 + 0.5 == x + 1.0;
  }

  /** The luminance DC step at quality 50 comes out as 17, not the table's 16. */
  lemma WrittenAtFifty()
    ensures BaseQY[0][0] == 16 && WrittenEntry(50, BaseQY[0][0]) == 17
  {
    WrittenOvershoots(50, 16);
  }

  /** Rounded once, quality 50 reproduces the base tables. */
  lemma IntendedAtFifty(entry: int)
    ensures IntendedEntry(50, entry) == entry
  {
    assert entry as real * ScaleOf(50) / 100.0 == entry as real;
  }

  /** Higher quality never gives a coarser quantizer step. */
  lemma IntendedMonotone(q1: int, q2: int, entry: nat)
    requires 1 <= q1 <= q2 <= 100
    ensures IntendedEntry(q2, entry) <= IntendedEntry(q1, entry)
  {
    ScaleMonotone(q1, q2);
    ScaleFactor(entry as real, ScaleOf(q2), ScaleOf(q1));
  }

  /** The double-rounded entry is the floor of the scaled value plus one. */
  lemma WrittenIsFloorPlusOne(quality: int, entry: int)
    requires 1 <= quality <= 100
    ensures WrittenEntry(quality, entry) == (entry as real * ScaleOf(quality) / 100.0).Floor + 1
  {
    var x := entry as real * ScaleOf(quality) / 100.0;
    assert (entry as real * ScaleOf(quality) + 50.0) / 100.0 + 0.5 == x + 1.0;
  }

  /** `Round` keeps order. */
  lemma RoundMonotone(a: real, b: real)
    requires a <= b
    ensures Round(a) <= Round(b)
  {
  }

  /** The entry as written is also never coarser at a higher quality. */
  lemma WrittenMonotone(q1: int, q2: int, entry: nat)
    requires 1 <= q1 <= q2 <= 100
    ensures WrittenEntry(q2, entry) <= WrittenEntry(q1, entry)
  {
    ScaleMonotone(q1, q2);
    ScaleFactor(entry as real, ScaleOf(q2), ScaleOf(q1));
    var x1 := (entry as real * ScaleOf(q1) + 50.0) / 100.0;
    var x2 := (entry as real * ScaleOf(q2) + 50.0) / 100.0;
    assert x2 <= x1;
    RoundMonotone(x2, x1);
  }

  /** Higher quality never gives a larger scale. */
  lemma ScaleMonotone(q1: int, q2: int)
    requires 1 <= q1 <= q2 <= 100
    ensures ScaleOf(q2) <= ScaleOf(q1)
  {
    if q2 < 50 {
      Antitone(5000.0, q1 as real, q2 as real);
    } else if q1 < 50 {
      Antitone(5000.0, q1 as real, 50.0);
    }
  }

  lemma ScaleFactor(e: real, a: real, b: real)
    requires 0.0 <= e && a <= b
    ensures e * a <= e * b
  {
  }

  /** Dividing by a larger positive number gives a smaller quotient. */
  lemma Antitone(n: real, x: real, y: real)
    requires 0.0 <= n && 0.0 < x <= y
    ensures n / y <= n / x
  {
    var a, b := n / x, n / y;
    assert a * x == n && b * y == n;
    ScaleFactor(b, x, y);
    assert (b - a) * x <= 0.0;
  }

  /** The clamp of a scaled entry into a valid quantizer step [1, 255]. */
  function QuantEntry(v: int): (r: int)
    ensures 1 <= r <= 255
    ensures 1 <= v <= 255 ==> r == v
    ensures v < 1 ==> r == 1
    ensures v > 255 ==> r == 255
  {
    if v < 1 then 1 else if v > 255 then 255 else v
  }

  /** `clamp`: a colour component limited to [0, 255]. */
  function Clamp(v: int): (r: int)
    ensures 0 <= r <= 255
    ensures 0 <= v <= 255 ==> r == v
    ensures v < 0 ==> r == 0
    ensures v > 255 ==> r == 255
  {
    if v < 0 then 0 else if v > 255 then 255 else v
  }

  /** Clamping keeps order and is idempotent. */
  lemma ClampMonotone(a: int, b: int)
    requires a <= b
    ensures Clamp(a) <= Clamp(b)
    ensures Clamp(Clamp(a)) == Clamp(a)
  {
  }

  /** The compressor object: its quality is fixed at construction. */
  class JpegCompressor {
    const quality: int

    /** The default quality, 30. */
    constructor Default()
      ensures quality == QualityOf(30)
    {
      quality := QualityOf(30);
    }

    constructor (q: Int32)
      ensures quality == QualityOf(q)
    {
      quality := QualityOf(q);
    }

    /**
     * `scaleQuantTable`: every entry scaled by the quality as the code writes it
     * (rounded twice, see `WrittenEntry`) and clamped into [1, 255].
     */
    method ScaleQuantTable(table: IntBlock) returns (result: array2<int>)
      requires 1 <= quality <= 100
      ensures fresh(result) && result.Length0 == 8 && result.Length1 == 8
      ensures forall i, j :: 0 <= i < 8 && 0 <= j < 8 ==> result[i, j] == QuantEntry(WrittenEntry(quality, table[i][j]))
      ensures forall i, j :: 0 <= i < 8 && 0 <= j < 8 ==> 1 <= result[i, j] <= 255
    {
      result := new int[8, 8]((_, _) => 1);
      for i := 0 to 8
        invariant forall i', j :: 0 <= i' < i && 0 <= j < 8 ==> result[i', j] == QuantEntry(WrittenEntry(quality, table[i'][j]))
      {
        for j := 0 to 8
          invariant forall i', j' :: 0 <= i' < 8 && 0 <= j' < 8 && (i' < i || (i' == i && j' < j)) ==>
            result[i', j'] == QuantEntry(WrittenEntry(quality, table[i'][j']))
        {
          var v := WrittenEntry(quality, table[i][j]);
          result[i, j] := if v < 1 then 1 else if v > 255 then 255 else v;
        }
      }
    }
  }

  /**
   * `upsample420`: a `targetHeight` by `targetWidth` channel in which sample
   * (i, j) repeats the half-size sample (i / 2, j / 2). The half-size channel
   * must cover every halved index that is read, as the array reads throw otherwise.
   */
  method Upsample420(input: seq<seq<real>>, targetWidth: nat, targetHeight: nat) returns (result: array2<real>)
    requires 0 < targetWidth ==> forall i :: 0 <= i < targetHeight ==> i / 2 < |input| && (targetWidth - 1) / 2 < |input[i / 2]|
    ensures fresh(result) && result.Length0 == targetHeight && result.Length1 == targetWidth
    ensures forall i, j :: 0 <= i < targetHeight && 0 <= j < targetWidth ==> result[i, j] == input[i / 2][j / 2]
  {
    result := new real[targetHeight, targetWidth]((_, _) => 0.0);
    for i := 0 to targetHeight
      invariant forall i', j :: 0 <= i' < i && 0 <= j < targetWidth ==> result[i', j] == input[i' / 2][j / 2]
    {
      for j := 0 to targetWidth
        invariant forall i', j' :: 0 <= i' < targetHeight && 0 <= j' < targetWidth && (i' < i || (i' == i && j' < j)) ==>
          result[i', j'] == input[i' / 2][j' / 2]
      {
        result[i, j] := input[i / 2][j / 2];
      }
    }
  }

  /**
   * One channel from `compress` to `decompress`: the block coder's symbols go
   * through the bit-packed Huffman codec and back, and the block decoder
   * rebuilds every sample as the inverse transform of its block's forward
   * transform. An empty channel has no symbols to compress, and a symbol
   * stream of a single repeated value does not decode.
   */
  method ChannelRoundTrip(channel: seq<seq<real>>, forward: RealBlock -> IntBlock, inverse: IntBlock -> RealBlock)
    returns (r: Result<array2<real>>)
    requires Rectangular(channel)
    requires GridFits(BlockScanner(channel, forward), Blocks(|channel|), Blocks(Width(channel)), 0, 0, 0)
    requires |ChannelCode(channel, Width(channel), forward)| < 0x8000_0000
    ensures var n := |HuffmanTree.Distinct(ChannelCode(channel, Width(channel), forward))|;
      (n == 0 ==> r == Err(EmptyInput)) && (n == 1 ==> r.Err?) && (n >= 2 ==> r.Ok?)
    ensures r.Ok? ==> r.value.Length0 == |channel| && r.value.Length1 == Width(channel)
    ensures r.Ok? ==> forall yy, xx :: 0 <= yy < |channel| && 0 <= xx < Width(channel) ==>
      r.value[yy, xx] == Reconstructed(channel, forward, inverse, yy, xx)
  {
    ghost var code := ChannelCode(channel, Width(channel), forward);
    var rleData := CompressChannel(channel, forward);
    var items := HuffmanCodec.CompressRLE(rleData);
    if items.Err? {
      assert HuffmanTree.Distinct(code) == {};
      return Err(items.error);
    }
    assert code[0] in HuffmanTree.Distinct(code);
    var rle := HuffmanCodec.DecompressRLE(items.value);
    if rle.Err? {
      return Err(rle.error);
    }
    ChannelPixels(channel, Width(channel), forward, inverse);
    r := DecompressChannel(rle.value, |channel|, Width(channel), inverse);
  }
}
