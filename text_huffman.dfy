/**
 * The text Huffman coder. Its file is a `TABLE` line, one `<char code>:<bits>`
 * line per entry of the coder's code map, a `DATA` line and then the codes of
 * the text as literal '0'/'1' characters. The code map is a field of the coder
 * object. `compress` adds to it and never clears it, so entries left over from
 * an earlier call stay in the map and are written again.
 */
module TextHuffman {
  import opened Common
  import opened HuffmanTree
  import opened TextFormat

  /** One table line: the character's number in decimal, ':', its code. */
  function TableLine(c: Char16, code: string): string
  {
    IntToString(c) + ":" + code
  }

  /** The table lines for the characters of `order`, each ended by "\n". */
  function TableText(order: seq<Char16>, codes: map<Char16, string>): string
    requires forall c :: c in order ==> c in codes
  {
    if order == [] then "" else TableLine(order[0], codes[order[0]]) + "\n" + TableText(order[1..], codes)
  }

  /** The same table lines as read back, without terminators. */
  function TableLines(order: seq<Char16>, codes: map<Char16, string>): (lines: seq<string>)
    requires forall c :: c in order ==> c in codes
    ensures |lines| == |order|
  {
    if order == [] then [] else [TableLine(order[0], codes[order[0]])] + TableLines(order[1..], codes)
  }

  /** The whole file written by `compress` when the map is listed in `order`. */
  function EncodeFile(order: seq<Char16>, codes: map<Char16, string>, text: seq<Char16>): string
    requires forall c :: c in order ==> c in codes
    requires forall c :: c in text ==> c in codes
  {
    "TABLE\n" + TableText(order, codes) + "DATA\n" + Stream(codes, text)
  }

  /** `order` lists every key of the map exactly once, as iterating its entries does. */
  ghost predicate Enumerates(order: seq<Char16>, keys: set<Char16>)
  {
    |order| == |keys| && forall c :: c in order <==> c in keys
  }

  /** What the decoder has gathered so far: whether it is past `DATA`, the reverse table and the bits. */
  datatype Reader = Reader(readingData: bool, reverse: map<string, Char16>, encoded: string)

  /**
   * One line of the decoder's read loop. `TABLE` is skipped and `DATA` starts
   * the data part. Before that, a line splitting into exactly two parts maps its
   * second part to the character numbered by its first, and an unparsable
   * number fails. After it, lines are appended to the bits.
   */
  function TakeLine(st: Reader, line: string): Result<Reader>
  {
    if line == "TABLE" then Ok(st)
    else if line == "DATA" then Ok(st.(readingData := true))
    else if !st.readingData then
      var parts := Split(line);
      if |parts| != 2 then Ok(st)
      else
        match ParseInt(parts[0])
        case Err(e) => Err(e)
        case Ok(v) => Ok(st.(reverse := st.reverse[parts[1] := ToChar(v)]))
    else Ok(st.(encoded := st.encoded + line))
  }

  function TakeLines(st: Reader, lines: seq<string>): Result<Reader>
    decreases |lines|
  {
    if lines == [] then Ok(st)
    else
      match TakeLine(st, lines[0])
      case Err(e) => Err(e)
      case Ok(next) => TakeLines(next, lines[1..])
  }

  /**
   * The bit matching loop: append one bit to the buffer; when the buffer is a
   * key of the reverse table, emit its character and empty the buffer. Bits
   * left in the buffer at the end are dropped.
   */
  function MatchBits(reverse: map<string, Char16>, buf: string, bits: string): seq<Char16>
    decreases |bits|
  {
    if bits == [] then []
    else
      var b := buf + [bits[0]];
      if b in reverse then [reverse[b]] + MatchBits(reverse, [], bits[1..])
      else MatchBits(reverse, b, bits[1..])
  }

  /** `decompress` on a whole file. */
  function DecodeFile(file: string): Result<seq<Char16>>
  {
    match TakeLines(Reader(false, map[], []), ReadLines(file))
    case Err(e) => Err(e)
    case Ok(st) => Ok(MatchBits(st.reverse, [], st.encoded))
  }

  /** The reverse table built from the table lines: each non-empty code maps back to its character. */
  function AddCodes(reverse: map<string, Char16>, order: seq<Char16>, codes: map<Char16, string>): map<string, Char16>
    requires forall c :: c in order ==> c in codes
    decreases |order|
  {
    if order == [] then reverse
    else
      var c := order[0];
      AddCodes(if codes[c] == [] then reverse else reverse[codes[c] := c], order[1..], codes)
  }

  /** Codes that differ for different characters of `order`, unless empty. */
  ghost predicate Injective(order: seq<Char16>, codes: map<Char16, string>)
    requires forall c :: c in order ==> c in codes
  {
    forall a, b :: a in order && b in order && a != b && codes[a] != [] ==> codes[a] != codes[b]
  }

  /**
   * With injective codes the reverse table maps each non-empty code of
   * `order` back to its character, holds no other new keys, and keeps the
   * entries no code of `order` overwrites.
   */
  lemma {:induction false} AddCodesSpec(reverse: map<string, Char16>, order: seq<Char16>, codes: map<Char16, string>)
    requires forall c :: c in order ==> c in codes
    requires Injective(order, codes)
    ensures forall c :: c in order && codes[c] != [] ==>
      codes[c] in AddCodes(reverse, order, codes) && AddCodes(reverse, order, codes)[codes[c]] == c
    ensures forall k :: k in AddCodes(reverse, order, codes) ==>
      k in reverse || exists c :: c in order && codes[c] == k
    ensures forall k :: k in reverse && (forall c :: c in order ==> codes[c] != k) ==>
      k in AddCodes(reverse, order, codes) && AddCodes(reverse, order, codes)[k] == reverse[k]
    decreases |order|
  {
    if order != [] {
      var c := order[0];
      var next := if codes[c] == [] then reverse else reverse[codes[c] := c];
      var r := AddCodes(reverse, order, codes);
      assert r == AddCodes(next, order[1..], codes);
      assert Injective(order[1..], codes);
      AddCodesSpec(next, order[1..], codes);
      forall d | d in order && codes[d] != [] && d !in order[1..]
        ensures codes[d] in r && r[codes[d]] == d
      {
        assert d == c;
        forall e | e in order[1..] ensures codes[e] != codes[c] {
          assert e in order;
        }
      }
      forall k | k in reverse && (forall e :: e in order ==> codes[e] != k)
        ensures k in r && r[k] == reverse[k]
      {
        assert forall e :: e in order[1..] ==> e in order;
      }
    }
  }

  /** Each table line holds no line break and begins with a digit. */
  lemma TableLinePlain(c: Char16, code: string)
    requires IsBits(code)
    ensures NoBreak(TableLine(c, code)) && IsDigit(TableLine(c, code)[0])
  {
    PrintedIsPlain(c);
  }

  /** The table text reads back as its lines. */
  lemma {:induction false} ReadTable(order: seq<Char16>, codes: map<Char16, string>, rest: string)
    requires forall c :: c in order ==> c in codes && IsBits(codes[c])
    ensures ReadLines(TableText(order, codes) + rest) == TableLines(order, codes) + ReadLines(rest)
  {
    if order == [] {
      assert TableText(order, codes) + rest == rest;
    } else {
      var line := TableLine(order[0], codes[order[0]]);
      TableLinePlain(order[0], codes[order[0]]);
      var tail := TableText(order[1..], codes);
      AppendAssoc(line + "\n", tail, rest);
      ReadLinesCons(line, tail + rest);
      ReadTable(order[1..], codes, rest);
      AppendAssoc([line], TableLines(order[1..], codes), ReadLines(rest));
    }
  }

  lemma {:induction false} TakeLinesAppend(st: Reader, a: seq<string>, b: seq<string>)
    ensures TakeLines(st, a + b) ==
      match TakeLines(st, a)
      case Err(e) => Err(e)
      case Ok(next) => TakeLines(next, b)
    decreases |a|
  {
    if a == [] {
      assert a + b == b;
    } else {
      assert (a + b)[1..] == a[1..] + b;
      match TakeLine(st, a[0])
      case Err(_) =>
      case Ok(next) => TakeLinesAppend(next, a[1..], b);
    }
  }

  /** Before `DATA`, the table lines add their non-empty codes to the reverse table. */
  lemma {:induction false} TakeTable(st: Reader, order: seq<Char16>, codes: map<Char16, string>)
    requires !st.readingData
    requires forall c :: c in order ==> c in codes && IsBits(codes[c])
    ensures TakeLines(st, TableLines(order, codes)) == Ok(st.(reverse := AddCodes(st.reverse, order, codes)))
    decreases |order|
  {
    if order != [] {
      var c := order[0];
      var line := TableLine(c, codes[c]);
      TableLinePlain(c, codes[c]);
      PrintedIsPlain(c);
      assert line != "TABLE" && line != "DATA" by {
        assert IsDigit(line[0]);
      }
      BitsPlain(codes[c]);
      SplitPair(IntToString(c), codes[c]);
      ParsePrinted(c);
      var next := st.(reverse := if codes[c] == [] then st.reverse else st.reverse[codes[c] := c]);
      assert TakeLine(st, line) == Ok(next);
      TakeTable(next, order[1..], codes);
    }
  }

  /** The data part as lines: none when it is empty. */
  function DataLines(data: string): seq<string>
  {
    if data == [] then [] else [data]
  }

  lemma ReadHeader(rest: string)
    ensures ReadLines("TABLE\n" + rest) == ["TABLE"] + ReadLines(rest)
  {
    assert "TABLE\n" + rest == "TABLE" + "\n" + rest;
    ReadLinesCons("TABLE", rest);
  }

  lemma ReadDataPart(data: string)
    requires NoBreak(data)
    ensures ReadLines("DATA\n" + data) == ["DATA"] + DataLines(data)
  {
    assert "DATA\n" + data == "DATA" + "\n" + data;
    ReadLinesCons("DATA", data);
    ReadLinesLast(data);
  }

  lemma ReadLayout(table: string, tableLines: seq<string>, data: string)
    requires NoBreak(data)
    requires ReadLines(table + ("DATA\n" + data)) == tableLines + ReadLines("DATA\n" + data)
    ensures ReadLines("TABLE\n" + table + "DATA\n" + data) == ["TABLE"] + (tableLines + (["DATA"] + DataLines(data)))
  {
    assert "TABLE\n" + table + "DATA\n" + data == "TABLE\n" + (table + ("DATA\n" + data));
    ReadHeader(table + ("DATA\n" + data));
    ReadDataPart(data);
  }

  /** The lines of a written file: `TABLE`, the table lines, `DATA`, and the data line unless it is empty. */
  lemma ReadEncoded(order: seq<Char16>, codes: map<Char16, string>, text: seq<Char16>)
    requires forall c :: c in order ==> c in codes && IsBits(codes[c])
    requires forall c :: c in text ==> c in codes && IsBits(codes[c])
    ensures ReadLines(EncodeFile(order, codes, text))
         == ["TABLE"] + (TableLines(order, codes) + (["DATA"] + DataLines(Stream(codes, text))))
  {
    StreamIsBits(codes, text);
    ReadTable(order, codes, "DATA\n" + Stream(codes, text));
    ReadLayout(TableText(order, codes), TableLines(order, codes), Stream(codes, text));
  }

  lemma {:induction false} StreamIsBits(codes: map<Char16, string>, xs: seq<Char16>)
    requires forall c :: c in xs ==> c in codes && IsBits(codes[c])
    ensures IsBits(Stream(codes, xs)) && NoBreak(Stream(codes, xs))
  {
    if xs != [] {
      StreamIsBits(codes, xs[1..]);
      var c, tail := codes[xs[0]], Stream(codes, xs[1..]);
      assert forall k :: 0 <= k < |c| ==> (c + tail)[k] == c[k];
      assert forall k :: |c| <= k < |c + tail| ==> (c + tail)[k] == tail[k - |c|];
    }
  }

  /** The bits of one code, read from inside it, emit its character once they are all in the buffer. */
  lemma {:induction false} MatchOne(reverse: map<string, Char16>, code: string, j: nat, rest: string)
    requires j < |code| && code in reverse
    requires forall k :: k in reverse ==> !(|k| < |code| && code[..|k|] == k)
    ensures MatchBits(reverse, code[..j], code[j..] + rest) == [reverse[code]] + MatchBits(reverse, [], rest)
    decreases |code| - j
  {
    var bits := code[j..] + rest;
    assert bits[0] == code[j] && bits[1..] == code[j + 1..] + rest;
    assert code[..j] + [code[j]] == code[..j + 1];
    if j + 1 == |code| {
      assert code[..j + 1] == code;
      assert code[j + 1..] + rest == rest;
    } else {
      var b := code[..j + 1];
      assert code[..|b|] == b;
      MatchOne(reverse, code, j + 1, rest);
    }
  }

  /** The concatenated codes of `xs` match back to `xs` when no key of the table is a proper prefix of a code. */
  lemma {:induction false} MatchStream(reverse: map<string, Char16>, codes: map<Char16, string>, xs: seq<Char16>)
    requires forall x :: x in xs ==> x in codes && codes[x] != [] && codes[x] in reverse && reverse[codes[x]] == x
    requires forall x, k :: x in xs && k in reverse ==> !(|k| < |codes[x]| && codes[x][..|k|] == k)
    ensures MatchBits(reverse, [], Stream(codes, xs)) == xs
  {
    if xs != [] {
      var code := codes[xs[0]];
      assert code[..0] == [] && code[0..] == code;
      MatchOne(reverse, code, 0, Stream(codes, xs[1..]));
      MatchStream(reverse, codes, xs[1..]);
      assert [xs[0]] + xs[1..] == xs;
    }
  }

  /** No code matches when the reverse table is empty. */
  lemma {:induction false} MatchNothing(buf: string, bits: string)
    ensures MatchBits(map[], buf, bits) == []
    decreases |bits|
  {
    if bits != [] {
      MatchNothing(buf + [bits[0]], bits[1..]);
    }
  }

  /** A string of bits holds neither ':' nor a line break. */
  lemma BitsPlain(code: string)
    requires IsBits(code)
    ensures ':' !in code && NoBreak(code)
  {
    forall i | 0 <= i < |code| ensures code[i] != ':' {
    }
  }

  /**
   * Reading a written file back: the table lines build the reverse table of
   * the non-empty codes in the order they were written, and the data line
   * becomes the bits to match.
   */
  lemma ReadBack(order: seq<Char16>, codes: map<Char16, string>, text: seq<Char16>)
    requires forall c :: c in order ==> c in codes && IsBits(codes[c])
    requires forall c :: c in text ==> c in codes && IsBits(codes[c])
    ensures DecodeFile(EncodeFile(order, codes, text))
         == Ok(MatchBits(AddCodes(map[], order, codes), [], Stream(codes, text)))
  {
    var data := Stream(codes, text);
    ReadEncoded(order, codes, text);
    var lines := ReadLines(EncodeFile(order, codes, text));
    var init := Reader(false, map[], []);
    var dataLines := DataLines(data);
    var table := TableLines(order, codes);
    assert TakeLines(init, lines) == TakeLines(init, table + (["DATA"] + dataLines));
    TakeLinesAppend(init, table, ["DATA"] + dataLines);
    TakeTable(init, order, codes);
    var reverse := AddCodes(map[], order, codes);
    StreamIsBits(codes, text);
    assert TakeLines(Reader(true, reverse, []), dataLines) == Ok(Reader(true, reverse, data)) by {
      if data != [] {
        assert data[0] == '0' || data[0] == '1';
        assert "TABLE"[0] == 'T' && "DATA"[0] == 'D';
        assert [] + data == data;
        assert dataLines[1..] == [];
      }
    }
    assert TakeLines(init, lines) == Ok(Reader(true, reverse, data));
  }

  /** With an internal root, the codes are prefix-free, so matching the data gives back the text. */
  lemma MatchTreeCodes(t: Tree<Char16>, text: seq<Char16>, order: seq<Char16>)
    requires t.Node? && Syms(t) == Distinct(text)
    requires forall c :: c in order <==> c in Syms(t)
    ensures forall c :: c in text ==> c in Codes(t, "", map[])
    ensures MatchBits(AddCodes(map[], order, Codes(t, "", map[])), [], Stream(Codes(t, "", map[]), text)) == text
  {
    var codes := Codes(t, "", map[]);
    assert forall c :: c in text ==> c in Distinct(text);
    CodesPrefixFree(t, map[]);
    assert Injective(order, codes);
    AddCodesSpec(map[], order, codes);
    var reverse := AddCodes(map[], order, codes);
    forall x, k | x in text && k in reverse
      ensures !(|k| < |codes[x]| && codes[x][..|k|] == k)
    {
      var c :| c in order && codes[c] == k;
      if c != x {
        assert c in Syms(t) && x in Syms(t);
      }
    }
    MatchStream(reverse, codes, text);
  }

  /**
   * Round trip for a coder whose map was empty: the file written with the
   * codes of a merge tree over the text, listed in any order, decodes to the
   * text when the tree has an internal root, and to nothing when it is a
   * single leaf (its code is empty, so its table line is dropped).
   */
  lemma TextRoundTrip(t: Tree<Char16>, text: seq<Char16>, order: seq<Char16>)
    requires Syms(t) == Distinct(text)
    requires Enumerates(order, Codes(t, "", map[]).Keys)
    ensures DecodeFile(EncodeFile(order, Codes(t, "", map[]), text)) == Ok(if t.Node? then text else [])
  {
    var codes := Codes(t, "", map[]);
    CodeTable(t);
    assert forall c :: c in text ==> c in Distinct(text);
    ReadBack(order, codes, text);
    if t.Node? {
      MatchTreeCodes(t, text, order);
    } else {
      EmptyCodesAddNothing(order, codes);
      MatchNothing([], Stream(codes, text));
    }
  }

  /** Table lines with empty codes add nothing to the reverse table. */
  lemma {:induction false} EmptyCodesAddNothing(order: seq<Char16>, codes: map<Char16, string>)
    requires forall c :: c in order ==> c in codes && codes[c] == []
    ensures AddCodes(map[], order, codes) == map[]
    decreases |order|
  {
    if order != [] {
      EmptyCodesAddNothing(order[1..], codes);
    }
  }

  lemma {:induction false} TableTextSnoc(order: seq<Char16>, c: Char16, codes: map<Char16, string>)
    requires forall d :: d in order + [c] ==> d in codes
    ensures TableText(order + [c], codes) == TableText(order, codes) + TableLine(c, codes[c]) + "\n"
  {
    if order == [] {
      assert [c][1..] == [];
    } else {
      assert (order + [c])[1..] == order[1..] + [c];
      TableTextSnoc(order[1..], c, codes);
      var head := TableLine(order[0], codes[order[0]]) + "\n";
      var tail := TableText(order[1..], codes);
      var line := TableLine(c, codes[c]);
      calc {
        TableText(order + [c], codes);
        head + TableText(order[1..] + [c], codes);
        head + (tail + line + "\n");
        { AppendAssoc(head, tail + line, "\n"); AppendAssoc(head, tail, line); }
        head + tail + line + "\n";
      }
    }
  }

  /** The coder object: its code map lives as long as the object does. */
  class HuffmanEncoder {
    var codeMap: map<Char16, string>

    constructor()
      ensures codeMap == map[]
    {
      codeMap := map[];
    }

    /** `buildCodeMap`: put each leaf's path below `root`, after `code`, into the map. */
    method BuildCodeMap(root: Tree<Char16>, code: string)
      modifies this
      ensures codeMap == Codes(root, code, old(codeMap))
      decreases root
    {
      if root.Leaf? {
        codeMap := codeMap[root.sym := code];
        return;
      }
      BuildCodeMap(root.left, code + "0");
      BuildCodeMap(root.right, code + "1");
    }

    /**
     * `compress` on the text already read from the file: count characters,
     * merge the queue into a tree, add its codes to the map, then write the
     * table of the whole map, in some order, and the codes of the text. An
     * empty text leaves the queue empty, and `buildCodeMap` dereferences the
     * `null` root it polls. Entries from earlier calls for characters not
     * in this text stay in the map and in the table. A coder whose map was
     * empty writes a file that decodes to the text when it has two or more
     * distinct characters, and to nothing when it has one.
     */
    method Compress(text: seq<Char16>) returns (r: Result<string>, ghost order: seq<Char16>)
      modifies this
      ensures r.Err? <==> text == []
      ensures r.Err? ==> r.error == NullReference && codeMap == old(codeMap)
      ensures r.Ok? ==> codeMap.Keys == old(codeMap).Keys + Distinct(text)
      ensures r.Ok? ==> forall c :: c in old(codeMap) && c !in text ==> codeMap[c] == old(codeMap)[c]
      ensures r.Ok? ==> Enumerates(order, codeMap.Keys) && r.value == EncodeFile(order, codeMap, text)
      ensures r.Ok? && |Distinct(text)| >= 2 ==> forall a, b :: a in text && b in text && a != b ==>
        |codeMap[a]| > 0 && !(|codeMap[a]| <= |codeMap[b]| && codeMap[b][..|codeMap[a]|] == codeMap[a])
      ensures r.Ok? && old(codeMap) == map[] ==>
        DecodeFile(r.value) == Ok(if |Distinct(text)| >= 2 then text else [])
    {
      var freq := CountFrequencies(text);
      CountedKeys(freq, text);
      var root := BuildTree(freq);
      if root.None? {
        return Err(NullReference), [];
      }
      var t := root.value;
      BagOfKeys(t, freq.Keys);
      ghost var before := codeMap;
      BuildCodeMap(t, "");
      CodesSpec(t, "", before);
      if t.Node? {
        CodesPrefixFree(t, before);
      }
      assert forall c :: c in text ==> c in Distinct(text);

      var table;
      table, order := WriteTable(codeMap);
      var data := WriteData(codeMap, text);
      var out := "TABLE\n" + table + "DATA\n" + data;
      r := Ok(out);
      if before == map[] {
        TextRoundTrip(t, text, order);
      }
    }

    /** The table loop: one line per entry of the map, in the map's iteration order. */
    static method WriteTable(codes: map<Char16, string>) returns (table: string, ghost order: seq<Char16>)
      ensures Enumerates(order, codes.Keys) && table == TableText(order, codes)
    {
      table := "";
      var todo := codes.Keys;
      order := [];
      while todo != {}
        invariant todo <= codes.Keys
        invariant forall c :: c in order <==> c in codes.Keys - todo
        invariant |order| + |todo| == |codes.Keys|
        invariant table == TableText(order, codes)
        decreases |todo|
      {
        var c :| c in todo;
        TableTextSnoc(order, c, codes);
        table := table + TableLine(c, codes[c]) + "\n";
        order := order + [c];
        todo := todo - {c};
      }
    }

    /** The data loop: the code of each character of the text, in order. */
    static method WriteData(codes: map<Char16, string>, text: seq<Char16>) returns (data: string)
      requires forall c :: c in text ==> c in codes
      ensures data == Stream(codes, text)
    {
      data := "";
      for i := 0 to |text|
        invariant data == Stream(codes, text[..i])
      {
        assert text[..i + 1] == text[..i] + [text[i]];
        StreamSnoc(codes, text[..i], text[i]);
        data := data + codes[text[i]];
      }
      assert text[..|text|] == text;
    }

    /**
     * `decompress` on the file's text: read the lines into the reverse table
     * and the bits, then match the bits against the table.
     */
    method Decompress(file: string) returns (r: Result<seq<Char16>>)
      ensures r == DecodeFile(file)
    {
      var lines := ReadLines(file);
      var reverseMap: map<string, Char16> := map[];
      var encodedText := "";
      var readingData := false;
      for i := 0 to |lines|
        invariant TakeLines(Reader(readingData, reverseMap, encodedText), lines[i..])
               == TakeLines(Reader(false, map[], []), lines)
      {
        var line := lines[i];
        assert lines[i..][1..] == lines[i + 1..];
        if line == "TABLE" {
          continue;
        }
        if line == "DATA" {
          readingData := true;
          continue;
        }
        if !readingData {
          var parts := Split(line);
          if |parts| == 2 {
            var ch := ParseInt(parts[0]);
            if ch.Err? {
              assert TakeLine(Reader(readingData, reverseMap, encodedText), line) == Err(ch.error);
              return Err(ch.error);
            }
            reverseMap := reverseMap[parts[1] := ToChar(ch.value)];
          }
        } else {
          encodedText := encodedText + line;
        }
      }
      assert lines[|lines|..] == [];
      assert DecodeFile(file) == Ok(MatchBits(reverseMap, [], encodedText));

      var output: seq<Char16> := [];
      var currentCode := "";
      for i := 0 to |encodedText|
        invariant output + MatchBits(reverseMap, currentCode, encodedText[i..]) == MatchBits(reverseMap, [], encodedText)
      {
        assert encodedText[i..][1..] == encodedText[i + 1..];
        currentCode := currentCode + [encodedText[i]];
        if currentCode in reverseMap {
          output := output + [reverseMap[currentCode]];
          currentCode := "";
        }
      }
      assert encodedText[|encodedText|..] == [];
      assert output == MatchBits(reverseMap, [], encodedText);
      r := Ok(output);
    }
  }
}
