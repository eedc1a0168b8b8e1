# Compression_project in Dafny

A model of the codecs at the core of the Compression_project repository, with proofs about them.
- **HuffmanCodec**: a bit-packed Huffman coder for 16-bit `short` values. It writes the tree in pre-order, then the value count, then a bit set of the concatenated codes.
- **HuffmanEncoder**: a text Huffman coder. It writes a `TABLE` of `<char number>:<bits>` lines and a `DATA` line of literal `'0'`/`'1'` characters. Its code map is a field that is never cleared.
- **LZWEncoder**: LZW over characters, with a dictionary seeded by the 256 one-character strings. The decoder handles the code that names the entry being learned.
- **JPEGCompressor**, integer layer. This covers:
  - quality clamping;
  - the scaled quantization tables;
  - the anti-diagonal scan of an 8x8 block and its inverse;
  - the differential-DC and (zero run, value) run-length symbols with the `-1` end-of-block marker;
  - the block grid with zero padding, and the block decoder writing into the output channel;
  - `clamp` and `upsample420`.

  The per-block floating-point stage is a parameter:
  - `forward`, standing for padding → DCT → quantize;
  - `inverse`, standing for dequantize → IDCT.

  The channel round trip is stated for any such pair.

Modules, one per file:

| file | module | models |
|---|---|---|
| common.dfy | `Common` | `short`/`int`/`char` widths, the narrowing casts, `Result` and the error cases |
| huffman_tree.dfy | `HuffmanTree` | the `Node` tree shared by both Huffman coders, `buildCodeMap`, frequency counting, the priority-queue merge |
| huffman_codec.dfy | `HuffmanCodec` | `writeTree`/`readTree`, `compressRLE`, `decompressRLE` |
| text_format.dfy | `TextFormat` | `readLine`, `split(":")`, `Integer.toString`/`parseInt` as the text coder uses them |
| text_huffman.dfy | `TextHuffman` | `HuffmanEncoder` as a class with its `codeMap` field |
| lzw.dfy | `Lzw` | `LZWEncoder.compress` and `decompress` over code lists |
| jpeg_scan.dfy | `JpegScan` | `zigzagScan`, `inverseZigzag` |
| jpeg_rle.dfy | `JpegRle` | the block symbols and the block decoder |
| jpeg_channel.dfy | `JpegChannel` | `compressChannel` and `decompressChannel` on the symbol lists |
| jpeg.dfy | `Jpeg` | the constructor, `scaleQuantTable`, `clamp`, `upsample420`, one channel through the Huffman codec |

Streams are modelled as in-memory values:
- A `DataOutputStream` becomes a sequence of `Item`s: a boolean, a `short`, an `int`, or the bit set.
- A `BitSet` becomes the set of its one positions.
- A text file is a `string` that the model reads back line by line.
- A Java `char` is an integer in 0..65535 (`Char16`).

Where Java throws, the model returns an `Err`:
- a dereference of `null` becomes `NullReference`;
- a read past the data becomes `CorruptStream`;
- a bad LZW code becomes `BadCode`;
- an LZW character with no code becomes `UnsupportedValue`.

Where the Java priority queue or `HashMap` iteration picks an order, the model picks any element (`:|`). The lemmas therefore hold for every tie-break.

Points where the code's behaviour is what is modelled:
- The LZW encoder on "AAAA" emits the three codes [65, 256, 65]: the second names the entry "AA" learned at the first, and the final flush emits the pending match (`Lzw.EncodeAAAA`). The decoder takes these codes back to "AAAA" through the code that names the entry being learned (`Lzw.DecodeAAAA`).
- The LZW decoder casts the first code straight to a character without a range check, so [256] decodes to the character 256 (`Lzw.DecodeFirstUnchecked`).
- Huffman input with a single distinct value does not round-trip in either coder:
  - The bit-packed codec's tree is one leaf, and decoding steps to a missing child (`HuffmanCodec.CompressRLE`).
  - The text coder's only code is empty, so its table line splits into one part and is skipped, and the file decodes to nothing (`TextHuffman.HuffmanEncoder.Compress`).
  - A JPEG channel whose symbols are all equal therefore fails to decode. An example is one all-zero 8x8 block whose DC difference is `-1`, giving symbols `[-1, -1]` (`Jpeg.ChannelRoundTrip`).

## Model

| member | source | states |
|---|---|---|
| Common.ToShort | src/compression/JPEGCompressor.java:147 | the `(short)` cast: congruent to its argument modulo 2^16, and the argument itself when it fits |
| Common.ToChar | src/compression/LZWEncoder.java:80 | the `(char)` cast: congruent modulo 2^16, the argument itself in 0..65535 |
| HuffmanTree.WeightIsFreq | src/compression/HuffmanCodec.java:18-22 | in a tree whose nodes carry the sum of their children's frequencies, the root frequency is the total weight of its leaves |
| HuffmanTree.Codes | src/compression/HuffmanCodec.java:34-41 | `buildCodeMap` adds exactly the tree's leaf values to the map's keys |
| TextFormat.ParseInt | src/compression/HuffmanEncoder.java:107 | a parsed number comes from a non-empty string starting with a sign or a digit, and a negative one from a leading '-' |
| Jpeg.ScaleOf | src/compression/JPEGCompressor.java:38 | the quality scale is never negative |
| HuffmanTree.CodesSpec | src/compression/HuffmanCodec.java:34-41 | `buildCodeMap` adds exactly the tree's leaf values to the map, keeps other entries, and maps each leaf to its path ('0' left, '1' right) |
| HuffmanTree.CodeTable | src/compression/HuffmanCodec.java:34-41 | from an empty map, the keys are the leaf values and each code is a bit string leading from the root to that value's leaf |
| HuffmanTree.LeafPathsPrefixFree | src/compression/HuffmanCodec.java:34-41 | no path to a leaf is a proper prefix of another path to a leaf |
| HuffmanTree.CodesPrefixFree | src/compression/HuffmanCodec.java:34-41 | with an internal root every code is non-empty and no code of one value is a prefix of another value's code |
| HuffmanTree.CountFrequencies | src/compression/HuffmanCodec.java:44-47 | the frequency map's keys are exactly the input values and each count is the number of occurrences |
| HuffmanTree.StreamSnoc | src/compression/HuffmanCodec.java:74-80 | the code stream of the input followed by `x` is the stream so far followed by `x`'s code |
| HuffmanTree.InitialQueue | src/compression/HuffmanCodec.java:49-52 | the queue holds one leaf per frequency key, with its frequency |
| HuffmanTree.Poll | src/compression/HuffmanCodec.java:55-56 | `poll` returns a tree of minimal frequency, and the rest is the queue without it: `multiset(rest) + multiset{t} == multiset(pq)`, with the symbol and weight bags moving with `t` |
| HuffmanTree.MergeKeepsForest | src/compression/HuffmanCodec.java:54-58 | replacing the two polled trees by their merge keeps the queue's leaf values and weights and its well-formedness |
| HuffmanTree.MergeAll | src/compression/HuffmanCodec.java:54-60 | the merge loop ends with one root holding all leaves and weights of the initial queue; it is internal iff the queue had two or more trees |
| HuffmanTree.BuildTree | src/compression/HuffmanCodec.java:44-60 | no root iff the frequency map is empty; otherwise a merge tree of the frequencies, internal iff there are two or more keys |
| HuffmanTree.MergeTreeOfInput | src/compression/HuffmanCodec.java:54-60 | the root's frequency is the input length and its leaves weigh exactly the input's multiset |
| HuffmanCodec.ReadTree | src/compression/HuffmanCodec.java:121-130 | `readTree` consumes at least one item when it succeeds |
| HuffmanCodec.ReadWriteTree | src/compression/HuffmanCodec.java:110-130 | `readTree` after `writeTree` gives back the tree's shape and leaf values, leaving what follows untouched |
| HuffmanCodec.ShapeLeafAt | src/compression/HuffmanCodec.java:124 | the read tree, whose frequencies are all 0, has the same leaf on every path as the written tree |
| HuffmanCodec.EncodeBits | src/compression/HuffmanCodec.java:72-80 | the bit set is that of the concatenation of the input's codes in input order |
| HuffmanCodec.DecodeFrom | src/compression/HuffmanCodec.java:98-105 | the decoding walk emits exactly `count` values |
| HuffmanCodec.DecodeSymbol | src/compression/HuffmanCodec.java:99-104 | bits spelling a value's code take the walk to its leaf, emit the value and restart at the root after them |
| HuffmanCodec.DecodeStream | src/compression/HuffmanCodec.java:95-105 | walking the concatenated codes of a sequence decodes exactly that sequence |
| HuffmanCodec.RoundTrip | src/compression/HuffmanCodec.java:43-108 | the stream for `input` decodes to `input` when the root is internal and fails with a null reference when it is one leaf |
| HuffmanCodec.CompressRLE | src/compression/HuffmanCodec.java:43-85 | fails iff the input is empty; with two or more distinct values the written stream decodes to the input, with one it fails |
| HuffmanCodec.DecompressRLE | src/compression/HuffmanCodec.java:87-108 | the decoder loop computes the stream decoding `DecodeArtifact`: tree, count, bits, `count` values by walking the tree |
| TextFormat.LineEnd | src/compression/HuffmanEncoder.java:98 | the first line ends at the first '\n' or '\r' |
| TextFormat.ReadLinesCons | src/compression/HuffmanEncoder.java:98 | a line without breaks written with "\n" is read back as that line, then the rest |
| TextFormat.ReadLinesLast | src/compression/HuffmanEncoder.java:98 | a last line without a terminator is still read |
| TextFormat.DropTrailingEmpty | src/compression/HuffmanEncoder.java:105 | `split` keeps a prefix of the pieces that is empty or ends in a non-empty piece, and every piece dropped is empty |
| TextFormat.SplitPair | src/compression/HuffmanEncoder.java:105-106 | `key:value` splits into two parts, and into one when the value is empty |
| TextFormat.ParsePrinted | src/compression/HuffmanEncoder.java:107 | parsing the decimal print of a character number gives it back |
| TextFormat.PrintedIsPlain | src/compression/HuffmanEncoder.java:79 | a printed number holds no ':' and no line break |
| TextHuffman.TableLines | src/compression/HuffmanEncoder.java:78-80 | one table line per entry of the code map |
| TextHuffman.AddCodesSpec | src/compression/HuffmanEncoder.java:105-109 | the reverse table maps each non-empty code back to its character and keeps only entries no table line overwrites |
| TextHuffman.ReadTable | src/compression/HuffmanEncoder.java:78-80 | the written table text reads back as its lines |
| TextHuffman.TakeTable | src/compression/HuffmanEncoder.java:104-109 | reading the table lines adds each non-empty code to the reverse table |
| TextHuffman.ReadEncoded | src/compression/HuffmanEncoder.java:77-113 | the written file reads back as `TABLE`, the table lines, `DATA` and the data line |
| TextHuffman.MatchStream | src/compression/HuffmanEncoder.java:117-124 | matching the concatenated prefix-free codes emits the characters in order |
| TextHuffman.MatchNothing | src/compression/HuffmanEncoder.java:117-124 | with an empty table no character is ever emitted |
| TextHuffman.ReadBack | src/compression/HuffmanEncoder.java:75-124 | decoding a written file matches the data bits against the table built from the written code map |
| TextHuffman.MatchTreeCodes | src/compression/HuffmanEncoder.java:117-124 | the codes of an internal-root tree, matched through the table, decode the text |
| TextHuffman.TextRoundTrip | src/compression/HuffmanEncoder.java:47-124 | a fresh coder's file decodes to the text when the tree has an internal root and to nothing when it is one leaf |
| TextHuffman.HuffmanEncoder.constructor | src/compression/HuffmanEncoder.java:35 | the code map starts empty |
| TextHuffman.HuffmanEncoder.BuildCodeMap | src/compression/HuffmanEncoder.java:37-44 | the field becomes the old map plus every leaf's path after `code` |
| TextHuffman.HuffmanEncoder.Compress | src/compression/HuffmanEncoder.java:47-88 | fails iff the text is empty, with the `null` root dereferenced; the map grows by the text's characters and keeps stale entries; the file lists the whole map and the text's codes; codes are prefix-free with two or more distinct characters; from an empty map the file decodes to the text, or to nothing with one distinct character |
| TextHuffman.HuffmanEncoder.WriteTable | src/compression/HuffmanEncoder.java:77-80 | one line per map entry, in some iteration order covering every key once |
| TextHuffman.HuffmanEncoder.WriteData | src/compression/HuffmanEncoder.java:84-86 | the data is the concatenation of the text's codes in order |
| TextHuffman.HuffmanEncoder.Decompress | src/compression/HuffmanEncoder.java:91-126 | the read and match loops compute `DecodeFile`: table lines, data bits, greedy matching with unmatched trailing bits dropped |
| Lzw.Entry | src/compression/LZWEncoder.java:88-94 | a known code or the next free code stands for a non-empty string |
| Lzw.Step | src/compression/LZWEncoder.java:85-98 | one code fails iff it is neither known nor the next free code; otherwise exactly one entry is learned |
| Lzw.Run | src/compression/LZWEncoder.java:84-99 | decoding learns one entry per code after the first |
| Lzw.RunErrExtends | src/compression/LZWEncoder.java:93 | once a code fails, decoding the longer list fails with the same error |
| Lzw.SeedMapKeys | src/compression/LZWEncoder.java:22-25 | the seed map's keys are exactly the one-character strings 0..255, each mapped to its character |
| Lzw.EncodeFromAt | src/compression/LZWEncoder.java:31-40 | reading one more character is one encoder step followed by the rest; a failed step fails the whole loop |
| Lzw.EncodeAAAA | src/compression/LZWEncoder.java:31-44 | the encoder emits [65, 256, 65] for "AAAA" |
| Lzw.SeedDictionary | src/compression/LZWEncoder.java:22-25 | the encoder's dictionary maps exactly the one-character strings 0..255 to their character, and is the seed map of `LzwEncode` |
| Lzw.ExtendKeeps | src/compression/LZWEncoder.java:33-34 | extending a known match keeps the encoder invariant |
| Lzw.EmitKeeps | src/compression/LZWEncoder.java:35-38 | an emission adds exactly the entry `w+c` at the next free code, leaves the others, and keeps the invariant |
| Lzw.EmitAgrees | src/compression/LZWEncoder.java:36-37 | the entry the encoder learns is the one the decoder learns for the same code |
| Lzw.EmitDecodes | src/compression/LZWEncoder.java:88-98 | after emitting the code of `w` the decoder has output the text read so far and learned the encoder's entries |
| Lzw.DictAdd | src/compression/LZWEncoder.java:37 | learning `w+c` at 256 + the number of learned entries keeps the dictionary's shape |
| Lzw.MissingMatch | src/compression/LZWEncoder.java:36 | an emitted match with no code only occurs when the text holds a character 256 or above |
| Lzw.BigMatchNotKey | src/compression/LZWEncoder.java:32-36 | after a character 256 or above the match and its extensions are not keys |
| Lzw.Advance | src/compression/LZWEncoder.java:31-40 | each turn of the encoder loop keeps the invariant, or fails only on a character 256 or above |
| Lzw.Scan | src/compression/LZWEncoder.java:27-40 | the encoder loop ends in the state `EncodeFrom` computes from the seed, with its invariant, or stops early, exactly when `EncodeFrom` fails and only for a character 256 or above |
| Lzw.Turn | src/compression/LZWEncoder.java:31-40 | one turn keeps the loop invariant and advances the state as one encoder step does, or stops exactly when the match to emit has no code |
| Lzw.Flush | src/compression/LZWEncoder.java:42-44 | the final match is non-empty and known iff all characters are below 256, and then the codes decode to the text |
| Lzw.Compress | src/compression/LZWEncoder.java:18-44 | the result is `LzwEncode(text)`; the empty text is refused; it succeeds iff every character is below 256; then the codes decode to the text, are no more than the characters, and the j-th code is below 256 + j |
| Lzw.MirrorsLearn | src/compression/LZWEncoder.java:97 | adding `w+entry[0]` at the next free code keeps the decoder map equal to the seed plus the learned entries |
| Lzw.SeedCodes | src/compression/LZWEncoder.java:67-70 | the decoder's map starts with each code 0..255 standing for its character |
| Lzw.Decompress | src/compression/LZWEncoder.java:63-99 | the decoder loop computes `LzwDecode`: empty list refused, first code cast, each further code known, next free, or an error |
| Lzw.DecodeAAAA | src/compression/LZWEncoder.java:84-99 | the codes [65, 256, 65] decode to "AAAA" |
| Lzw.DecodeFirstUnchecked | src/compression/LZWEncoder.java:80 | the first code 256 is not checked and decodes to the character 256 |
| JpegScan.StartStep | src/compression/JPEGCompressor.java:287-295 | the diagonals 0..14 start one after the other and cover indices 0..63 |
| JpegScan.IndexOf | src/compression/JPEGCompressor.java:284-297 | the scan index of (x, y) lies on diagonal x + y |
| JpegScan.Pos | src/compression/JPEGCompressor.java:284-297 | the position visited at scan index k is inside the block |
| JpegScan.PosOfIndex | src/compression/JPEGCompressor.java:284-297 | each position is visited once, at its own index |
| JpegScan.IndexOfPos | src/compression/JPEGCompressor.java:284-297 | each index visits one position |
| JpegScan.ScanStartsAtDC | src/compression/JPEGCompressor.java:292 | the scan starts with `block[0][0]` |
| JpegScan.UnscanScan | src/compression/JPEGCompressor.java:284-312 | `inverseZigzag(zigzagScan(b)) == b` |
| JpegScan.ScanUnscan | src/compression/JPEGCompressor.java:284-312 | `zigzagScan(inverseZigzag(a)) == a` for 64 entries |
| JpegScan.ZigzagScan | src/compression/JPEGCompressor.java:284-297 | the loops fill the array with the scan of the block |
| JpegScan.InverseZigzag | src/compression/JPEGCompressor.java:299-312 | the loops write each entry of the array back to its position |
| JpegRle.DecodeAc | src/compression/JPEGCompressor.java:185-191 | the AC loop keeps 64 entries and the DC and consumes symbols |
| JpegRle.DecodeBlock | src/compression/JPEGCompressor.java:180-191 | the block's DC is the previous DC plus the first symbol |
| JpegRle.PairStep | src/compression/JPEGCompressor.java:186-190 | a (run, value) pair over zeros stores the value run positions later |
| JpegRle.AcRoundTrip | src/compression/JPEGCompressor.java:150-191 | the AC symbols and the marker decode back to the scan's AC entries, trailing zeros included |
| JpegRle.BlockRoundTrip | src/compression/JPEGCompressor.java:146-191 | given the same previous DC and 16-bit values, a block's symbols decode to its 64-entry scan, leaving what follows |
| JpegRle.RunsInRange | src/compression/JPEGCompressor.java:150-158 | runs lie in [0, 62] and alternate with values, so a run is never the end marker |
| JpegChannel.BlockCount | src/compression/JPEGCompressor.java:170-171 | block b has samples iff b < ceil(n / 8) |
| JpegChannel.GridMapHolds | src/compression/JPEGCompressor.java:176-177 | the blocks from (blockY, blockX) on in raster order are exactly the later grid positions, each with its scan |
| JpegChannel.DecodeFrom | src/compression/JPEGCompressor.java:176-203 | the block loop decodes only grid positions at or after the start, each to 64 entries |
| JpegChannel.DecodeStep | src/compression/JPEGCompressor.java:177-191 | a decoded block followed by the rest of the grid adds that block to the rest's result |
| JpegChannel.GridRoundTrip | src/compression/JPEGCompressor.java:135-203 | the grid's symbols, DC differences chained from block to block, decode to every block's scan |
| JpegChannel.ScannerScans | src/compression/JPEGCompressor.java:137-145 | block (a, b) is scanned from the padded samples starting at (8a, 8b) |
| JpegChannel.PixelOfGrid | src/compression/JPEGCompressor.java:193-199 | sample (yy, xx) is taken from block (yy/8, xx/8) at offset (yy%8, xx%8) |
| JpegChannel.ChannelPixels | src/compression/JPEGCompressor.java:131-205 | a channel's symbols decode, and every sample is the inverse transform of its block's forward transform |
| JpegChannel.PadBlock | src/compression/JPEGCompressor.java:137-143 | the block copies in-range samples and is 0 elsewhere |
| JpegChannel.EmitBlock | src/compression/JPEGCompressor.java:146-160 | the symbols are the DC difference, a (zero run, value) pair per non-zero AC, and the end marker |
| JpegChannel.EncodeBlock | src/compression/JPEGCompressor.java:137-160 | one block's symbols and its DC, for the block's scan |
| JpegChannel.EncodeRow | src/compression/JPEGCompressor.java:136-161 | a row of blocks appends its symbols, DC chained through the row |
| JpegChannel.EncodeRows | src/compression/JPEGCompressor.java:132-162 | the rows' symbols, from previous DC 0, are those of the whole grid |
| JpegChannel.CompressChannel | src/compression/JPEGCompressor.java:131-162 | the list handed to the Huffman codec is the grid's symbols |
| JpegChannel.AcPair | src/compression/JPEGCompressor.java:186-190 | one pair writes zeros over the run, bounded by 64, then stores the value if room is left |
| JpegChannel.SkipRun | src/compression/JPEGCompressor.java:189 | zeros from `zi` over the run or to the end of the block, nothing else changed |
| JpegChannel.StorePair | src/compression/JPEGCompressor.java:188-190 | one pair of the AC loop as the decoding function's step |
| JpegChannel.DecodeBlockAt | src/compression/JPEGCompressor.java:179-191 | the block decoder's array and index are those of `DecodeBlock` |
| JpegChannel.GridOfCells | src/compression/JPEGCompressor.java:299-312 | the 8x8 array written by the inverse scan holds the inverse scan |
| JpegChannel.WriteBlock | src/compression/JPEGCompressor.java:194-201 | the block's samples inside the channel are written and nothing else |
| JpegChannel.MergeStep | src/compression/JPEGCompressor.java:177-202 | decoding one more block extends the decoded blocks by it |
| JpegChannel.PixelStep | src/compression/JPEGCompressor.java:194-201 | adding a block changes only the samples of that block |
| JpegChannel.DecodeInto | src/compression/JPEGCompressor.java:178-201 | one block decoded into the channel, matching the block loop's specification |
| JpegChannel.DecodeRow | src/compression/JPEGCompressor.java:177-202 | one row of blocks, stopping when the symbols run out |
| JpegChannel.DecompressChannel | src/compression/JPEGCompressor.java:167-205 | succeeds iff the symbols decode on the grid; the channel is height x width and each sample is its block's inverse transform, 0 where no block was decoded |
| Jpeg.QualityOf | src/compression/JPEGCompressor.java:20 | quality is clamped into [1, 100] and unchanged inside it |
| Jpeg.JpegCompressor.constructor | src/compression/JPEGCompressor.java:19-21 | the quality is the clamped argument |
| Jpeg.JpegCompressor.Default | src/compression/JPEGCompressor.java:15-17 | the default quality is 30 |
| Jpeg.BaseTables | src/compression/JPEGCompressor.java:23-35 | both base tables are 8x8 with steps in [1, 255] |
| Jpeg.Round | src/compression/JPEGCompressor.java:42 | `Math.round` is the nearest integer, halves rounded up |
| Jpeg.WrittenOvershoots | src/compression/JPEGCompressor.java:42 | the written entry is the once-rounded entry plus one exactly when the scaled value's fraction is below one half; at quality 50 every entry is raised by one |
| Jpeg.WrittenAtFifty | src/compression/JPEGCompressor.java:42 | at quality 50 the luminance DC step 16 becomes 17 |
| Jpeg.IntendedAtFifty | src/compression/JPEGCompressor.java:38-42 | rounded once, quality 50 gives back the base table |
| Jpeg.ScaleMonotone | src/compression/JPEGCompressor.java:38 | a higher quality never gives a larger scale |
| Jpeg.IntendedMonotone | src/compression/JPEGCompressor.java:38-42 | corrected half of the finding: rounded once, a higher quality never gives a coarser quantizer step |
| Jpeg.WrittenIsFloorPlusOne | src/compression/JPEGCompressor.java:42 | the entry as written is the floor of the scaled value plus one |
| Jpeg.WrittenMonotone | src/compression/JPEGCompressor.java:38-42 | as written, a higher quality never gives a coarser quantizer step |
| Jpeg.QuantEntry | src/compression/JPEGCompressor.java:43 | each step is in [1, 255] and unchanged inside it |
| Jpeg.JpegCompressor.ScaleQuantTable | src/compression/JPEGCompressor.java:37-46 | an 8x8 table of each entry scaled by the quality as line 42 writes it (`WrittenEntry`, rounded twice) and clamped to [1, 255] |
| Jpeg.Clamp | src/compression/JPEGCompressor.java:314-316 | the result is in [0, 255], 0 below it, 255 above it, identity inside |
| Jpeg.ClampMonotone | src/compression/JPEGCompressor.java:314-316 | clamping keeps order and is idempotent |
| Jpeg.Upsample420 | src/compression/JPEGCompressor.java:218-226 | sample (i, j) of the result is sample (i/2, j/2) of the half-size channel |
| Jpeg.ChannelRoundTrip | src/compression/JPEGCompressor.java:131-205 | a channel through the block coder, `compressRLE`, `decompressRLE` and the block decoder: empty channels fail, one distinct symbol fails, otherwise every sample is the inverse transform of its block's forward transform |

The functions below define what the operations compute and carry no contract of their own; the members above are stated in terms of them.

- `HuffmanCodec.WriteTree`: `writeTree`'s pre-order items, src/compression/HuffmanCodec.java:110-119.
- `HuffmanCodec.DecodeArtifact`: `decompressRLE` on the written items, src/compression/HuffmanCodec.java:87-108.
- `TextFormat.ReadLines`: the `readLine` loop, src/compression/HuffmanEncoder.java:98.
- `TextFormat.Split`: `line.split(":")`, src/compression/HuffmanEncoder.java:105.
- `TextHuffman.EncodeFile`: the file `compress` writes, src/compression/HuffmanEncoder.java:75-88.
- `TextHuffman.DecodeFile`: `decompress` on a file's text, src/compression/HuffmanEncoder.java:91-127.
- `Lzw.LzwEncode`: `compress` on a text, src/compression/LZWEncoder.java:18-44.
- `Lzw.LzwDecode`: `decompress` on a code list, src/compression/LZWEncoder.java:63-99.
- `JpegRle.BlockSymbols`: one block's symbols in `compressChannel`, src/compression/JPEGCompressor.java:146-160.
- `Jpeg.WrittenEntry`: a scaled table entry as written, src/compression/JPEGCompressor.java:42.
- `Jpeg.IntendedEntry`: the same entry rounded once, the corrected form of src/compression/JPEGCompressor.java:42.

## Left out

- File and stream I/O:
  - `BufferedReader` reading of the input text, which appends "\n" to every line;
  - the `DataOutputStream` byte encoding;
  - `BitSet.toByteArray`;
  - `ImageIO`.

  The codecs work on in-memory sequences of values, items, codes and strings. The text coder's file is a `string` read back with `readLine`'s line splitting.
- The floating-point stages are parameters of the channel model:
  - DCT/IDCT;
  - `quantize`/`dequantize`;
  - RGB↔YCbCr conversion;
  - `downsample` averaging.

  The whole-image lossy round trip is left out because it depends on them.
- Jpeg.ScaleOf: the scale below quality 50 is the exact real 5000 / quality, not the `double` quotient. Rounding of that quotient is not modelled. From quality 50 on the scale is an integer and exact.
- The Huffman tree shape is left open: `PriorityQueue` ties and `HashMap` order are any choice.
- `int` overflow is not modelled:
  - of the Huffman frequencies;
  - of the LZW `dictSize`;
  - of the channel's running DC.

  The symbol values themselves are narrowed to `short` explicitly.
- JpegRle.BlockRoundTrip: the round trip needs the DC difference and the AC values to fit in 16 bits; the `(short)` cast of larger values is modelled but not inverted.
- HuffmanCodec.CompressRLE: requires fewer than 2^31 values, the range of the written `int` count.
- HuffmanCodec.CompressRLE: the empty input is `Err(EmptyInput)`; in Java `buildCodeMap(null)` dereferences `null`.
- TextFormat.ParseInt: only ASCII digits are accepted; Java's `Integer.parseInt` also accepts the decimal digits of other Unicode scripts, which the written table never contains.
- Lzw.Scan: when a match to emit has no code, Java still adds `null` to the list and goes on, and fails only when it unboxes that `null` at the write; the model stops at that point with the same error.
- Lzw.Decompress: the `null` code skipped at LZWEncoder.java:86 cannot come from `readInt` and is not modelled.
- JpegChannel.DecompressChannel: a negative height or width is `Err(CorruptStream)`; Java throws `NegativeArraySizeException`.
- JpegChannel.Padded: the samples are rows of a `double[height][width]`, so all rows have the first row's width, as `compressChannel` reads `channel[0].length`. `CompressChannel` requires this.
- Odd image dimensions are not modelled for the whole image. `Upsample420` requires the half-size channel to cover every halved index that is read. The chroma channel sizes of `compress` are not part of this model.
- `CompressionApp` (the Swing UI) and the `Compressor` interface are not part of this model.

## Findings

| source | as written | input that shows it | evidently intended | confidence | as-written member | corrected member |
|---|---|---|---|---|---|---|
| src/compression/JPEGCompressor.java:42 | `Math.round((table[i][j] * scale + 50) / 100)` adds the half before dividing and rounds again, so an entry is rounded up by one whenever the scaled value's fraction is below one half | quality 50, entry 16 (the luminance DC step): scale 100, (1600 + 50) / 100 = 16.5, rounded to 17 | the IJG scaling, which rounds once: quality 50 reproduces Tables K.1/K.2 of ITU-T T.81 | high (not executed) | Jpeg.WrittenEntry, Jpeg.WrittenAtFifty | Jpeg.IntendedEntry, Jpeg.IntendedAtFifty |

`Jpeg.JpegCompressor.ScaleQuantTable` computes the table as written; the corrected entry and its properties (`Jpeg.IntendedAtFifty`, `Jpeg.IntendedMonotone`) stand beside it.
