/**
 * The binary Huffman codec for 16-bit values: the tree is written in pre-order,
 * then the value count, then the concatenated codes as a bit set. Decoding
 * rebuilds the tree (frequencies are not stored) and walks it bit by bit.
 */
module HuffmanCodec {
  import opened Common
  import opened HuffmanTree

  /**
   * One primitive written to or read from the data stream: `writeBoolean`,
   * `writeShort`, `writeInt`, and the bit set stored through its byte array.
   */
  datatype Item = Flag(b: bool) | ShortItem(v: Short) | IntItem(n: Int32) | BitsItem(ones: set<nat>)

  /** `writeTree`: a leaf is `true` and its value; a node is `false`, then left, then right. */
  function WriteTree(t: Tree<Short>): seq<Item>
  {
    match t
    case Leaf(s, _) => [Flag(true), ShortItem(s)]
    case Node(l, r, _) => [Flag(false)] + WriteTree(l) + WriteTree(r)
  }

  /** The tree with every frequency zero: all the stream keeps of a tree. */
  function Shape(t: Tree<Short>): Tree<Short>
  {
    match t
    case Leaf(s, _) => Leaf(s, 0)
    case Node(l, r, _) => Node(Shape(l), Shape(r), 0)
  }

  /**
   * `readTree`: rebuild a tree from the front of the stream and return the
   * remaining items; a missing or mistyped item is a corrupt stream.
   */
  function ReadTree(items: seq<Item>): (r: Result<(Tree<Short>, seq<Item>)>)
    ensures r.Ok? ==> |r.value.1| < |items|
    decreases |items|
  {
    if |items| == 0 || !items[0].Flag? then Err(CorruptStream)
    else if items[0].b then
      if |items| < 2 || !items[1].ShortItem? then Err(CorruptStream)
      else Ok((Leaf(items[1].v, 0), items[2..]))
    else
      match ReadTree(items[1..])
      case Err(e) => Err(e)
      case Ok((l, rest1)) =>
        match ReadTree(rest1)
        case Err(e) => Err(e)
        case Ok((r, rest2)) => Ok((Node(l, r, l.freq + r.freq), rest2))
  }

  /** Reading back a written tree yields its shape and leaves what follows untouched. */
  lemma {:induction false} ReadWriteTree(t: Tree<Short>, rest: seq<Item>)
    ensures ReadTree(WriteTree(t) + rest) == Ok((Shape(t), rest))
  {
    match t
    case Leaf(s, _) =>
      assert (WriteTree(t) + rest)[2..] == rest;
    case Node(l, r, _) =>
      var items := WriteTree(t) + rest;
      assert items[1..] == WriteTree(l) + (WriteTree(r) + rest);
      ReadWriteTree(l, WriteTree(r) + rest);
      ReadWriteTree(r, rest);
  }

  /** Forgetting frequencies keeps every root-to-leaf path. */
  lemma {:induction false} ShapeLeafAt(t: Tree<Short>, p: string)
    ensures LeafAt(Shape(t), p) == LeafAt(t, p)
    ensures Shape(t).Node? == t.Node?
    decreases p
  {
    match t
    case Leaf(_, _) =>
    case Node(l, r, _) =>
      if p != [] {
        ShapeLeafAt(if p[0] == '1' then r else l, p[1..]);
      }
  }

  /** The positions of the '1' characters of a bit string: what `bits.set` records. */
  function Ones(s: string): set<nat>
  {
    set k: nat | k < |s| && s[k] == '1'
  }

  lemma OnesSnoc(s: string, c: char)
    ensures Ones(s + [c]) == Ones(s) + (if c == '1' then {|s|} else {})
  {
    var a, b := Ones(s + [c]), Ones(s) + (if c == '1' then {|s|} else {});
    forall k | k in a ensures k in b {
      if k < |s| { assert (s + [c])[k] == s[k]; }
    }
    forall k | k in b ensures k in a {
      if k < |s| { assert (s + [c])[k] == s[k]; }
    }
  }

  /** The bit-writing loop: one bit per code character, set where the character is '1'. */
  method EncodeBits(codes: map<Short, string>, input: seq<Short>) returns (bits: set<nat>)
    requires forall x :: x in input ==> x in codes
    ensures bits == Ones(Stream(codes, input))
  {
    bits := {};
    var bitIndex := 0;
    for i := 0 to |input|
      invariant bitIndex == |Stream(codes, input[..i])|
      invariant bits == Ones(Stream(codes, input[..i]))
    {
      var code := codes[input[i]];
      ghost var done := Stream(codes, input[..i]);
      for j := 0 to |code|
        invariant bitIndex == |done| + j
        invariant bits == Ones(done + code[..j])
      {
        OnesSnoc(done + code[..j], code[j]);
        assert done + code[..j + 1] == (done + code[..j]) + [code[j]];
        if code[j] == '1' {
          bits := bits + {bitIndex};
        }
        bitIndex := bitIndex + 1;
      }
      assert input[..i + 1] == input[..i] + [input[i]];
      assert code[..|code|] == code;
      StreamSnoc(codes, input[..i], input[i]);
    }
    assert input[..|input|] == input;
  }

  /**
   * The decoding walk: from the internal node `cur`, bit `i` picks the right
   * child when set and the left one otherwise; reaching a leaf emits its value
   * and restarts at `root`, until `n` more values are emitted.
   */
  function DecodeFrom(root: Tree<Short>, cur: Tree<Short>, ones: set<nat>, i: nat, n: nat): (r: seq<Short>)
    requires root.Node? && cur.Node?
    ensures |r| == n
    decreases n, cur
  {
    if n == 0 then []
    else
      var next := if i in ones then cur.right else cur.left;
      if next.Leaf? then [next.sym] + DecodeFrom(root, root, ones, i + 1, n - 1)
      else DecodeFrom(root, next, ones, i + 1, n)
  }

  /**
   * `decompressRLE` on a whole stream: the tree, the value count and the bit
   * set. A non-positive count decodes nothing; a positive count over a
   * single-leaf tree steps to a missing child.
   */
  function DecodeArtifact(items: seq<Item>): Result<seq<Short>>
  {
    match ReadTree(items)
    case Err(e) => Err(e)
    case Ok((root, rest)) =>
      if |rest| < 2 || !rest[0].IntItem? || !rest[1].BitsItem? then Err(CorruptStream)
      else if rest[0].n <= 0 then Ok([])
      else if root.Leaf? then Err(NullReference)
      else Ok(DecodeFrom(root, root, rest[1].ones, 0, rest[0].n))
  }

  /** The bits `c` at position `i` lead from `cur` to the leaf of `s`: the walk emits `s` and goes on after them. */
  lemma {:induction false} DecodeSymbol(root: Tree<Short>, cur: Tree<Short>, ones: set<nat>, i: nat,
                                        c: string, s: Short, n: nat)
    requires root.Node? && cur.Node? && n >= 1
    requires IsBits(c) && LeafAt(cur, c) == Some(s)
    requires forall k :: 0 <= k < |c| ==> (i + k in ones <==> c[k] == '1')
    ensures DecodeFrom(root, cur, ones, i, n) == [s] + DecodeFrom(root, root, ones, i + |c|, n - 1)
    decreases c
  {
    assert i + 0 in ones <==> c[0] == '1';
    var next := if i in ones then cur.right else cur.left;
    if next.Node? {
      forall k | 0 <= k < |c[1..]| ensures (i + 1 + k in ones <==> c[1..][k] == '1') {
        assert i + 1 + k == i + (k + 1);
      }
      DecodeSymbol(root, next, ones, i + 1, c[1..], s, n);
    }
  }

  /** Walking the concatenated codes of `xs` from position `i` gives back `xs`. */
  lemma {:induction false} DecodeStream(root: Tree<Short>, ones: set<nat>, i: nat,
                                        codes: map<Short, string>, xs: seq<Short>)
    requires root.Node?
    requires forall x :: x in xs ==> x in codes && IsBits(codes[x]) && LeafAt(root, codes[x]) == Some(x)
    requires forall k :: 0 <= k < |Stream(codes, xs)| ==> (i + k in ones <==> Stream(codes, xs)[k] == '1')
    ensures DecodeFrom(root, root, ones, i, |xs|) == xs
    decreases |xs|
  {
    if xs != [] {
      var c, tail := codes[xs[0]], Stream(codes, xs[1..]);
      assert Stream(codes, xs) == c + tail;
      forall k | 0 <= k < |c| ensures (i + k in ones <==> c[k] == '1') {
        assert (c + tail)[k] == c[k];
      }
      DecodeSymbol(root, root, ones, i, c, xs[0], |xs|);
      forall k | 0 <= k < |tail| ensures (i + |c| + k in ones <==> tail[k] == '1') {
        assert (c + tail)[|c| + k] == tail[k];
        assert i + |c| + k == i + (|c| + k);
      }
      DecodeStream(root, ones, i + |c|, codes, xs[1..]);
      assert [xs[0]] + xs[1..] == xs;
    }
  }

  /**
   * The stream written for `input` with tree `t` decodes to `input` when the
   * tree has an internal root, and fails when it is a single leaf.
   */
  lemma RoundTrip(t: Tree<Short>, input: seq<Short>)
    requires |input| < 0x8000_0000
    requires Syms(t) == Distinct(input)
    ensures
      var codes := Codes(t, "", map[]);
      var items := WriteTree(t) + [IntItem(|input|), BitsItem(Ones(Stream(codes, input)))];
      && (t.Node? ==> DecodeArtifact(items) == Ok(input))
      && (t.Leaf? && input != [] ==> DecodeArtifact(items) == Err(NullReference))
  {
    var codes := Codes(t, "", map[]);
    CodeTable(t);
    var stream := Stream(codes, input);
    var rest := [IntItem(|input|), BitsItem(Ones(stream))];
    ReadWriteTree(t, rest);
    ShapeLeafAt(t, []);
    if t.Node? && input != [] {
      forall x | x in input
        ensures x in codes && IsBits(codes[x]) && LeafAt(Shape(t), codes[x]) == Some(x)
      {
        assert x in Distinct(input);
        ShapeLeafAt(t, codes[x]);
      }
      DecodeStream(Shape(t), Ones(stream), 0, codes, input);
    }
  }

  /**
   * `compressRLE`: count values, merge the queue into a tree, and write the
   * tree, the value count and the code bits. An empty input leaves no tree.
   * With two or more distinct values the stream decodes to the input; with a
   * single distinct value the tree is one leaf and decoding fails.
   */
  method CompressRLE(input: seq<Short>) returns (r: Result<seq<Item>>)
    requires |input| < 0x8000_0000
    ensures r.Err? <==> input == []
    ensures r.Err? ==> r.error == EmptyInput
    ensures r.Ok? && |Distinct(input)| >= 2 ==> DecodeArtifact(r.value) == Ok(input)
    ensures r.Ok? && |Distinct(input)| == 1 ==> DecodeArtifact(r.value) == Err(NullReference)
  {
    var freq := CountFrequencies(input);
    CountedKeys(freq, input);
    var root := BuildTree(freq);
    if root.None? {
      return Err(EmptyInput);
    }
    var t := root.value;
    BagOfKeys(t, freq.Keys);
    var codeMap := Codes(t, "", map[]);
    CodeTable(t);
    var bits := EncodeBits(codeMap, input);
    r := Ok(WriteTree(t) + [IntItem(|input|), BitsItem(bits)]);
    RoundTrip(t, input);
  }

  /**
   * `decompressRLE`: read the tree, the count and the bits, then walk the tree
   * until `count` values are emitted.
   */
  method DecompressRLE(items: seq<Item>) returns (r: Result<seq<Short>>)
    ensures r == DecodeArtifact(items)
  {
    var tree := ReadTree(items);
    if tree.Err? {
      return Err(tree.error);
    }
    var root, rest := tree.value.0, tree.value.1;
    assert tree == Ok((root, rest));
    if |rest| < 2 || !rest[0].IntItem? || !rest[1].BitsItem? {
      return Err(CorruptStream);
    }
    var count, ones := rest[0].n, rest[1].ones;
    if count <= 0 {
      assert DecodeArtifact(items) == Ok([]);
      return Ok([]);
    }
    if root.Leaf? {
      assert DecodeArtifact(items) == Err(NullReference);
      return Err(NullReference);
    }
    assert DecodeArtifact(items) == Ok(DecodeFrom(root, root, ones, 0, count));
    var output := [];
    var current := root;
    var i, decoded := 0, 0;
    while decoded < count
      invariant 0 <= decoded <= count && current.Node?
      invariant output + DecodeFrom(root, current, ones, i, count - decoded)
             == DecodeFrom(root, root, ones, 0, count)
      decreases count - decoded, current
    {
      current := if i in ones then current.right else current.left;
      if current.Leaf? {
        output := output + [current.sym];
        current := root;
        decoded := decoded + 1;
      }
      i := i + 1;
    }
    assert DecodeFrom(root, current, ones, i, count - decoded) == [];
    assert output == DecodeFrom(root, root, ones, 0, count);
    r := Ok(output);
  }
}
