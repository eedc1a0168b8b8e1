/**
 * LZW over 16-bit characters with a dictionary seeded by the 256 one-character
 * strings 0..255. The encoder emits the code of the longest known match and
 * learns the match extended by the next character. The decoder rebuilds the
 * same entries one step later, including the case where a code names the entry
 * being learned.
 */
module Lzw {
  import opened Common

  /** A one-character string of the seed alphabet. */
  predicate IsSeed(s: seq<Char16>)
  {
    |s| == 1 && s[0] < 256
  }

  /** Every character is in the seed alphabet 0..255. */
  predicate AllSmall(s: seq<Char16>)
  {
    forall j :: 0 <= j < |s| ==> s[j] < 256
  }

  /** The decoder's dictionary: seed codes below 256, learned entries from 256 on. */
  function Lookup(entries: seq<seq<Char16>>, k: int): Option<seq<Char16>>
  {
    if 0 <= k < 256 then Some([k])
    else if 256 <= k < 256 + |entries| then Some(entries[k - 256])
    else None
  }

  /** The decoder after some codes: learned entries, the previous string `w`, and the output so far. */
  datatype Decoder = Decoder(entries: seq<seq<Char16>>, w: seq<Char16>, out: seq<Char16>)

  predicate Ready(d: Decoder)
  {
    d.w != [] && forall j :: 0 <= j < |d.entries| ==> d.entries[j] != []
  }

  /** The string a code stands for: a known entry, or `w + w[0]` for the next free code. */
  function Entry(d: Decoder, k: int): (r: Option<seq<Char16>>)
    requires Ready(d)
    ensures r.Some? ==> r.value != []
  {
    if Lookup(d.entries, k).Some? then Lookup(d.entries, k)
    else if k == 256 + |d.entries| then Some(d.w + [d.w[0]])
    else None
  }

  /** One decoding step: output the entry, learn `w + entry[0]`, move `w` on. */
  function Step(d: Decoder, k: int): (r: Result<Decoder>)
    requires Ready(d)
    ensures r.Ok? ==> Ready(r.value) && |r.value.entries| == |d.entries| + 1
    ensures r.Err? <==> Entry(d, k).None?
  {
    match Entry(d, k)
    case None => Err(BadCode(k))
    case Some(entry) => Ok(Decoder(d.entries + [d.w + [entry[0]]], entry, d.out + entry))
  }

  /** The decoding loop over `ks`, as a left fold: the last code is the last step. */
  function Run(d: Decoder, ks: seq<int>): (r: Result<Decoder>)
    requires Ready(d)
    ensures r.Ok? ==> Ready(r.value) && |r.value.entries| == |d.entries| + |ks|
  {
    if ks == [] then Ok(d)
    else
      match Run(d, ks[..|ks| - 1])
      case Err(e) => Err(e)
      case Ok(mid) => Step(mid, ks[|ks| - 1])
  }

  /** The first code is cast straight to a character, with no lookup and no range check. */
  function Start(first: int): Decoder
  {
    Decoder([], [ToChar(first)], [ToChar(first)])
  }

  /** `decompress` on the list of codes read from the file. */
  function LzwDecode(codes: seq<int>): Result<seq<Char16>>
  {
    if codes == [] then Err(EmptyInput)
    else
      match Run(Start(codes[0]), codes[1..])
      case Err(e) => Err(e)
      case Ok(d) => Ok(d.out)
  }

  /** Once a prefix of the codes fails, the whole sequence fails with the same error. */
  lemma {:induction false} RunErrExtends(d: Decoder, ks: seq<int>, m: nat)
    requires Ready(d) && m <= |ks| && Run(d, ks[..m]).Err?
    ensures Run(d, ks) == Run(d, ks[..m])
    decreases |ks| - m
  {
    if m == |ks| {
      assert ks[..m] == ks;
    } else {
      var front := ks[..|ks| - 1];
      assert front[..m] == ks[..m];
      RunErrExtends(d, front, m);
    }
  }

  lemma RunSnoc(d: Decoder, ks: seq<int>, k: int)
    requires Ready(d)
    ensures Run(d, ks + [k]) ==
      match Run(d, ks)
      case Err(e) => Err(e)
      case Ok(mid) => Step(mid, k)
  {
    assert (ks + [k])[..|ks|] == ks;
  }

  /**
   * The encoder's dictionary after learning `added`: the seeds map to their
   * character, the `j`-th learned string to 256 + j, every value is below the
   * next free code, and every key starts with a seed character.
   */
  ghost predicate DictOf(dict: map<seq<Char16>, int>, added: seq<seq<Char16>>)
  {
    && (forall s :: s in dict <==> IsSeed(s) || s in added)
    && (forall s :: s in dict && IsSeed(s) ==> dict[s] == s[0])
    && (forall j :: 0 <= j < |added| ==> added[j] in dict && dict[added[j]] == 256 + j)
    && (forall s :: s in dict ==> 0 <= dict[s] < 256 + |added|)
    && (forall s :: s in dict ==> s != [] && s[0] < 256)
  }

  /**
   * The encoder agrees with the decoder: before any code, the match is the
   * whole prefix read; after some codes, the decoder has output the prefix up
   * to the pending match `w`, and the encoder has learned the decoder's entries
   * plus one more, the last decoded string extended by `w[0]`.
   */
  ghost predicate Agrees(compressed: seq<int>, added: seq<seq<Char16>>, w: seq<Char16>, prefix: seq<Char16>)
  {
    if compressed == [] then added == [] && w == prefix
    else
      && w != []
      && Run(Start(compressed[0]), compressed[1..]).Ok?
      && var d := Run(Start(compressed[0]), compressed[1..]).value;
      && added == d.entries + [d.w + [w[0]]]
      && prefix == d.out + w
  }

  /**
   * The encoder loop's invariant after `i` characters. While only seed
   * characters have been read, the match is a key (or empty at the start), all
   * keys are seed strings and the codes agree with the decoder. Just after the
   * first character 256 or above, the match is that character alone.
   */
  ghost predicate Inv(text: seq<Char16>, i: nat, dict: map<seq<Char16>, int>, w: seq<Char16>,
                      compressed: seq<int>, added: seq<seq<Char16>>)
    requires i <= |text|
  {
    && DictOf(dict, added)
    && Emitted(i, compressed, added)
    && Phase(text, i, dict, w, compressed, added)
  }

  /** One learned entry per code emitted, fewer codes than characters read, each code below the next free one. */
  ghost predicate Emitted(i: nat, compressed: seq<int>, added: seq<seq<Char16>>)
  {
    && |added| == |compressed|
    && (i == 0 ==> compressed == []) && (i > 0 ==> |compressed| < i)
    && (forall j :: 0 <= j < |compressed| ==> 0 <= compressed[j] < 256 + j)
  }

  ghost predicate Phase(text: seq<Char16>, i: nat, dict: map<seq<Char16>, int>, w: seq<Char16>,
                        compressed: seq<int>, added: seq<seq<Char16>>)
    requires i <= |text|
  {
    if AllSmall(text[..i]) then
         && (i == 0 ==> w == []) && (i > 0 ==> w in dict)
         && (forall s :: s in dict ==> AllSmall(s))
         && Agrees(compressed, added, w, text[..i])
       else
         i > 0 && w == [text[i - 1]] && text[i - 1] >= 256
  }

  /** The seed dictionary satisfies the invariant before the first character. */
  lemma InvInit(text: seq<Char16>, dict: map<seq<Char16>, int>)
    requires forall s :: s in dict <==> IsSeed(s)
    requires forall s :: s in dict ==> |s| == 1 && dict[s] == s[0]
    ensures Inv(text, 0, dict, [], [], [])
  {
    assert text[..0] == [];
  }

  lemma SmallPrefix(text: seq<Char16>, i: nat)
    requires i < |text|
    ensures AllSmall(text[..i + 1]) <==> AllSmall(text[..i]) && text[i] < 256
  {
    assert forall j :: 0 <= j < i ==> text[..i + 1][j] == text[..i][j];
  }

  /** The match extended by the next character is a key: keep extending. */
  lemma ExtendKeeps(text: seq<Char16>, i: nat, dict: map<seq<Char16>, int>, w: seq<Char16>,
                    compressed: seq<int>, added: seq<seq<Char16>>)
    requires i < |text| && Inv(text, i, dict, w, compressed, added)
    requires AllSmall(text[..i]) && w + [text[i]] in dict
    ensures Inv(text, i + 1, dict, w + [text[i]], compressed, added)
  {
    SmallPrefix(text, i);
    assert text[..i + 1] == text[..i] + [text[i]];
    var wc := w + [text[i]];
    assert AllSmall(wc) && wc[|wc| - 1] == text[i];
    assert compressed != [] ==> w != [] && wc[0] == w[0];
  }

  /** Emitting the code of `w` takes the decoder to the state that has output the prefix. */
  lemma EmitDecodes(compressed: seq<int>, added: seq<seq<Char16>>, w: seq<Char16>, prefix: seq<Char16>,
                    dict: map<seq<Char16>, int>)
    requires DictOf(dict, added) && |added| == |compressed|
    requires Agrees(compressed, added, w, prefix) && w in dict
    ensures var codes := compressed + [dict[w]];
      Run(Start(codes[0]), codes[1..]) == Ok(Decoder(added, w, prefix))
  {
    var codes := compressed + [dict[w]];
    if compressed == [] {
      assert IsSeed(w) && w == [w[0]] && dict[w] == w[0];
      assert codes[1..] == [];
    } else {
      assert codes[1..] == compressed[1..] + [dict[w]];
      var d := Run(Start(compressed[0]), compressed[1..]).value;
      RunSnoc(Start(compressed[0]), compressed[1..], dict[w]);
      assert |d.entries| == |added| - 1;
      if IsSeed(w) {
        assert dict[w] == w[0] && w == [w[0]];
        assert Lookup(d.entries, dict[w]) == Some(w);
      } else {
        var j :| 0 <= j < |added| && added[j] == w;
        assert dict[w] == 256 + j;
        if j < |d.entries| {
          assert d.entries[j] == w;
          assert Lookup(d.entries, dict[w]) == Some(w);
        } else {
          assert w == d.w + [w[0]];
          assert w[0] == d.w[0];
          assert Lookup(d.entries, dict[w]).None?;
        }
      }
      assert Entry(d, dict[w]) == Some(w);
    }
  }

  /** Learning a new string that starts with a seed character keeps the dictionary's shape. */
  lemma DictAdd(dict: map<seq<Char16>, int>, added: seq<seq<Char16>>, wc: seq<Char16>)
    requires DictOf(dict, added) && wc !in dict && |wc| >= 2 && wc[0] < 256
    ensures DictOf(dict[wc := 256 + |added|], added + [wc])
  {
    var added' := added + [wc];
    assert forall s :: s in added' <==> s in added || s == wc;
  }

  /** The extended match is new: emit the code of `w`, learn the extension, restart from the character. */
  lemma EmitKeeps(text: seq<Char16>, i: nat, dict: map<seq<Char16>, int>, w: seq<Char16>,
                  compressed: seq<int>, added: seq<seq<Char16>>)
    requires i < |text| && Inv(text, i, dict, w, compressed, added)
    requires AllSmall(text[..i]) && w + [text[i]] !in dict && w in dict
    ensures Inv(text, i + 1, dict[w + [text[i]] := 256 + |added|], [text[i]],
                compressed + [dict[w]], added + [w + [text[i]]])
  {
    SmallPrefix(text, i);
    var c := text[i];
    var wc := w + [c];
    assert w != [] && wc[0] == w[0];
    DictAdd(dict, added, wc);
    var dict' := dict[wc := 256 + |added|];
    var compressed' := compressed + [dict[w]];
    assert forall j :: 0 <= j < |compressed'| ==> 0 <= compressed'[j] < 256 + j;
    if c < 256 {
      EmitAgrees(text, i, dict, w, compressed, added);
    } else {
      assert !AllSmall(text[..i + 1]);
    }
  }

  /** The seed-only side of `EmitKeeps`: the new keys stay seed strings and the decoder keeps up. */
  lemma EmitAgrees(text: seq<Char16>, i: nat, dict: map<seq<Char16>, int>, w: seq<Char16>,
                   compressed: seq<int>, added: seq<seq<Char16>>)
    requires i < |text| && Inv(text, i, dict, w, compressed, added)
    requires AllSmall(text[..i]) && text[i] < 256 && w + [text[i]] !in dict && w in dict
    ensures var wc := w + [text[i]];
      && (forall s :: s in dict[wc := 256 + |added|] ==> AllSmall(s))
      && Agrees(compressed + [dict[w]], added + [wc], [text[i]], text[..i + 1])
  {
    var c := text[i];
    var wc := w + [c];
    assert AllSmall(wc) by {
      assert forall j :: 0 <= j < |w| ==> wc[j] == w[j];
    }
    NewKeysSmall(dict, wc, 256 + |added|);
    EmitDecodes(compressed, added, w, text[..i], dict);
    var codes := compressed + [dict[w]];
    var d := Decoder(added, w, text[..i]);
    assert Run(Start(codes[0]), codes[1..]) == Ok(d);
    assert added + [wc] == d.entries + [d.w + [[c][0]]];
    assert text[..i + 1] == d.out + [c];
  }

  lemma NewKeysSmall(dict: map<seq<Char16>, int>, wc: seq<Char16>, code: int)
    requires (forall s :: s in dict ==> AllSmall(s)) && AllSmall(wc)
    ensures forall s :: s in dict[wc := code] ==> AllSmall(s)
  {
  }

  /** An emission whose match is not a key only happens once a character 256 or above was read. */
  lemma MissingMatch(text: seq<Char16>, i: nat, dict: map<seq<Char16>, int>, w: seq<Char16>,
                     compressed: seq<int>, added: seq<seq<Char16>>)
    requires i < |text| && Inv(text, i, dict, w, compressed, added)
    requires w + [text[i]] !in dict && w !in dict
    ensures !AllSmall(text)
  {
    if AllSmall(text[..i]) {
      assert w == [];
      assert [text[i]] !in dict;
      assert !IsSeed([text[i]]);
      assert text[i] >= 256;
    } else {
      assert text[i - 1] >= 256;
    }
  }

  /** After a character 256 or above, the next extension is never a key. */
  lemma BigMatchNotKey(text: seq<Char16>, i: nat, dict: map<seq<Char16>, int>, w: seq<Char16>,
                       compressed: seq<int>, added: seq<seq<Char16>>)
    requires i <= |text| && Inv(text, i, dict, w, compressed, added)
    ensures !AllSmall(text[..i]) ==> w !in dict
    ensures !AllSmall(text[..i]) && i < |text| ==> w + [text[i]] !in dict
  {
    if w != [] {
      assert forall c :: (w + [c])[0] == w[0];
    }
  }

  /** At the end the pending match is a key exactly when the text is all seed characters, and then the codes decode to the text. */
  lemma Flush(text: seq<Char16>, dict: map<seq<Char16>, int>, w: seq<Char16>,
              compressed: seq<int>, added: seq<seq<Char16>>)
    requires text != [] && Inv(text, |text|, dict, w, compressed, added)
    ensures w != [] && (w in dict <==> AllSmall(text))
    ensures w in dict ==> LzwDecode(compressed + [dict[w]]) == Ok(text)
    ensures w in dict ==> var codes := compressed + [dict[w]];
      |codes| <= |text| && forall j :: 0 <= j < |codes| ==> 0 <= codes[j] < 256 + j
  {
    assert text[..|text|] == text;
    if AllSmall(text) {
      EmitDecodes(compressed, added, w, text, dict);
    }
  }

  /** The encoder's state: dictionary, pending match, codes emitted and next free code. */
  datatype Encoder = Encoder(dict: map<seq<Char16>, int>, w: seq<Char16>, codes: seq<int>, size: int)

  /** Each character 0..255 as a string, mapped to its own code. */
  function SeedMap(): map<seq<Char16>, int>
  {
    map c: Char16 | 0 <= c < 256 :: [c] := c
  }

  /** The seed map's keys are exactly the seed strings, each mapped to its character. */
  lemma SeedMapKeys()
    ensures forall s :: s in SeedMap() <==> IsSeed(s)
    ensures forall s :: s in SeedMap() ==> SeedMap()[s] == s[0]
  {
    forall s | IsSeed(s)
      ensures s in SeedMap()
    {
      assert s == [s[0]];
    }
  }

  function Initial(): Encoder
  {
    Encoder(SeedMap(), [], [], 256)
  }

  /**
   * One turn of the encoder loop: extend a known match, else emit the match's
   * code and learn the extension. A match with no code has no value to write,
   * which is the encoder's failure.
   */
  function EncodeStep(e: Encoder, c: Char16): Option<Encoder>
  {
    var wc := e.w + [c];
    if wc in e.dict then Some(e.(w := wc))
    else if e.w !in e.dict then None
    else Some(Encoder(e.dict[wc := e.size], [c], e.codes + [e.dict[e.w]], e.size + 1))
  }

  /** The encoder loop over the characters still to read. */
  function EncodeFrom(e: Encoder, s: seq<Char16>): Option<Encoder>
    decreases |s|
  {
    if s == [] then Some(e)
    else
      match EncodeStep(e, s[0])
      case None => None
      case Some(next) => EncodeFrom(next, s[1..])
  }

  /** `compress` as a function of the text: the loop from the seed dictionary, then the pending match. */
  function LzwEncode(text: seq<Char16>): Result<seq<int>>
  {
    if text == [] then Err(EmptyInput)
    else
      match EncodeFrom(Initial(), text)
      case None => Err(UnsupportedValue)
      case Some(e) => if e.w in e.dict then Ok(e.codes + [e.dict[e.w]]) else Err(UnsupportedValue)
  }

  /** "AAAA" is encoded as [65, 256, 65]: the second code names the entry "AA" learned at the first. */
  lemma EncodeAAAA()
    ensures LzwEncode([65, 65, 65, 65]) == Ok([65, 256, 65])
  {
    SeedMapKeys();
    var d := SeedMap();
    var e0 := Initial();
    assert [] + [65] == [65] && [65] in d && d[[65]] == 65;
    var e1 := Encoder(d, [65], [], 256);
    assert EncodeStep(e0, 65) == Some(e1);
    assert [65] + [65] == [65, 65] && [65, 65] !in d;
    var d2 := d[[65, 65] := 256];
    var e2 := Encoder(d2, [65], [65], 257);
    assert e1.codes + [65] == [65];
    assert EncodeStep(e1, 65) == Some(e2);
    var e3 := Encoder(d2, [65, 65], [65], 257);
    assert EncodeStep(e2, 65) == Some(e3);
    assert [65, 65] + [65] == [65, 65, 65] && [65, 65, 65] !in d2;
    var e4 := Encoder(d2[[65, 65, 65] := 257], [65], [65, 256], 258);
    assert [65, 65, 65] !in d;
    assert e3.w + [65] == [65, 65, 65] && e3.w in d2 && d2[e3.w] == 256 && e3.codes + [256] == [65, 256];
    assert EncodeStep(e3, 65) == Some(e4);
    var text: seq<Char16> := [65, 65, 65, 65];
    assert text[1..] == [65, 65, 65] && text[1..][1..] == [65, 65] && text[1..][1..][1..] == [65];
    assert EncodeFrom(e4, []) == Some(e4);
    assert EncodeFrom(e3, [65]) == Some(e4);
    assert EncodeFrom(e2, [65, 65]) == Some(e4);
    assert EncodeFrom(e1, [65, 65, 65]) == Some(e4);
    assert EncodeFrom(e0, text) == Some(e4);
    assert [65, 256] + [65] == [65, 256, 65];
  }

  /** Reading the character at `i` is one encoder step followed by the rest. */
  lemma EncodeFromAt(e: Encoder, text: seq<Char16>, i: nat)
    requires i < |text|
    ensures EncodeStep(e, text[i]).None? ==> EncodeFrom(e, text[i..]) == None
    ensures EncodeStep(e, text[i]).Some? ==>
      EncodeFrom(e, text[i..]) == EncodeFrom(EncodeStep(e, text[i]).value, text[i + 1..])
  {
    assert text[i..][0] == text[i] && text[i..][1..] == text[i + 1..];
  }

  /** The encoder's initial dictionary: each character 0..255 as a string maps to its own code. */
  method SeedDictionary() returns (dictionary: map<seq<Char16>, int>)
    ensures forall s :: s in dictionary <==> IsSeed(s)
    ensures forall s :: s in dictionary ==> |s| == 1 && dictionary[s] == s[0]
    ensures dictionary == SeedMap()
  {
    dictionary := map[];
    for i := 0 to 256
      invariant forall s :: s in dictionary <==> |s| == 1 && s[0] < i
      invariant forall s :: s in dictionary ==> |s| == 1 && dictionary[s] == s[0]
    {
      assert forall s: seq<Char16> :: |s| == 1 && s[0] == i ==> s == [i];
      dictionary := dictionary[[i] := i];
    }
    SeedMapKeys();
  }

  /** One turn of the encoder loop keeps the invariant, or fails only on a character 256 or above. */
  lemma Advance(text: seq<Char16>, i: nat, dict: map<seq<Char16>, int>, w: seq<Char16>,
                compressed: seq<int>, added: seq<seq<Char16>>)
    requires i < |text| && Inv(text, i, dict, w, compressed, added)
    ensures var wc := w + [text[i]];
      && (wc in dict ==> Inv(text, i + 1, dict, wc, compressed, added))
      && (wc !in dict && w in dict ==>
            Inv(text, i + 1, dict[wc := 256 + |added|], [text[i]], compressed + [dict[w]], added + [wc]))
      && (wc !in dict && w !in dict ==> !AllSmall(text))
  {
    var wc := w + [text[i]];
    BigMatchNotKey(text, i, dict, w, compressed, added);
    if wc in dict {
      ExtendKeeps(text, i, dict, w, compressed, added);
    } else if w in dict {
      EmitKeeps(text, i, dict, w, compressed, added);
    } else {
      MissingMatch(text, i, dict, w, compressed, added);
    }
  }

  /**
   * `compress` on the text already read from the file. An empty text is
   * refused. A text holding a character 256 or above fails: its match has no
   * code, and writing the missing code throws. Otherwise every code is below
   * the next free code at its emission, and the codes decode to the text.
   */
  method Compress(text: seq<Char16>) returns (r: Result<seq<int>>)
    ensures r.Ok? <==> text != [] && AllSmall(text)
    ensures text == [] ==> r == Err(EmptyInput)
    ensures text != [] && r.Err? ==> r.error == UnsupportedValue
    ensures r.Ok? ==> LzwDecode(r.value) == Ok(text)
    ensures r.Ok? ==> |r.value| <= |text| && forall j :: 0 <= j < |r.value| ==> 0 <= r.value[j] < 256 + j
    ensures r == LzwEncode(text)
  {
    if text == [] {
      return Err(EmptyInput);
    }
    var seed := SeedDictionary();
    var failed, dictionary, w, compressed, added := Scan(text, seed);
    if failed {
      return Err(UnsupportedValue);
    }
    Flush(text, dictionary, w, compressed, added);
    if w !in dictionary {
      return Err(UnsupportedValue);
    }
    compressed := compressed + [dictionary[w]];
    r := Ok(compressed);
  }

  /**
   * The main loop of `compress`, one character per turn. It stops early when a
   * match to emit has no code, which only happens once a character 256 or
   * above was read.
   */
  method Scan(text: seq<Char16>, seed: map<seq<Char16>, int>)
    returns (failed: bool, dictionary: map<seq<Char16>, int>, w: seq<Char16>, compressed: seq<int>,
             ghost added: seq<seq<Char16>>)
    requires forall s :: s in seed <==> IsSeed(s)
    requires forall s :: s in seed ==> |s| == 1 && seed[s] == s[0]
    ensures failed ==> !AllSmall(text)
    ensures !failed ==> Inv(text, |text|, dictionary, w, compressed, added)
    ensures failed ==> EncodeFrom(Encoder(seed, [], [], 256), text) == None
    ensures !failed ==> EncodeFrom(Encoder(seed, [], [], 256), text) == Some(Encoder(dictionary, w, compressed, 256 + |added|))
  {
    dictionary := seed;
    w := [];
    compressed := [];
    var dictSize := 256;
    added := [];
    InvInit(text, dictionary);
    assert text[0..] == text;
    ghost var final := EncodeFrom(Encoder(seed, [], [], 256), text);
    for i := 0 to |text|
      invariant Inv(text, i, dictionary, w, compressed, added)
      invariant dictSize == 256 + |added|
      invariant EncodeFrom(Encoder(dictionary, w, compressed, dictSize), text[i..]) == final
    {
      var stop;
      stop, dictionary, w, compressed, dictSize, added := Turn(text, i, dictionary, w, compressed, dictSize, added);
      if stop {
        return true, dictionary, w, compressed, added;
      }
    }
    assert text[|text|..] == [];
    failed := false;
  }

  /**
   * One turn of the encoder loop on the character at `i`: extend the match
   * while it is a key, else emit its code and learn the extension. `stop`
   * when the match to emit has no code; the state is then returned unchanged.
   */
  method Turn(text: seq<Char16>, i: nat, dictionary: map<seq<Char16>, int>, w: seq<Char16>, compressed: seq<int>,
              dictSize: int, ghost added: seq<seq<Char16>>)
    returns (stop: bool, dictionary': map<seq<Char16>, int>, w': seq<Char16>, compressed': seq<int>,
             dictSize': int, ghost added': seq<seq<Char16>>)
    requires i < |text| && Inv(text, i, dictionary, w, compressed, added) && dictSize == 256 + |added|
    ensures stop ==> !AllSmall(text) && EncodeFrom(Encoder(dictionary, w, compressed, dictSize), text[i..]) == None
    ensures stop ==> dictionary' == dictionary && w' == w && compressed' == compressed && added' == added
    ensures !stop ==> Inv(text, i + 1, dictionary', w', compressed', added') && dictSize' == 256 + |added'|
    ensures !stop ==> EncodeFrom(Encoder(dictionary, w, compressed, dictSize), text[i..]) ==
                      EncodeFrom(Encoder(dictionary', w', compressed', dictSize'), text[i + 1..])
  {
    var c := text[i];
    var wc := w + [c];
    Advance(text, i, dictionary, w, compressed, added);
    ghost var e := Encoder(dictionary, w, compressed, dictSize);
    EncodeFromAt(e, text, i);
    stop, dictionary', w', compressed', dictSize', added' := false, dictionary, w, compressed, dictSize, added;
    if wc in dictionary {
      w' := wc;
    } else if w !in dictionary {
      stop := true;
    } else {
      compressed' := compressed + [dictionary[w]];
      dictionary' := dictionary[wc := dictSize];
      dictSize' := dictSize + 1;
      added' := added + [wc];
      w' := [c];
    }
  }

  /** The decoder's map holds exactly the codes below the next free one, each standing for its `Lookup` string. */
  ghost predicate Mirrors(dictionary: map<int, seq<Char16>>, entries: seq<seq<Char16>>)
  {
    && (forall k :: k in dictionary <==> 0 <= k < 256 + |entries|)
    && (forall k :: k in dictionary ==> Lookup(entries, k) == Some(dictionary[k]))
  }

  lemma MirrorsLearn(dictionary: map<int, seq<Char16>>, entries: seq<seq<Char16>>, e: seq<Char16>)
    requires Mirrors(dictionary, entries)
    ensures Mirrors(dictionary[256 + |entries| := e], entries + [e])
  {
    forall k | k in dictionary
      ensures Lookup(entries + [e], k) == Lookup(entries, k)
    {
      if 256 <= k {
        assert (entries + [e])[k - 256] == entries[k - 256];
      }
    }
  }

  /** The decoder's initial map: each code 0..255 stands for its one character. */
  method SeedCodes() returns (dictionary: map<int, seq<Char16>>)
    ensures Mirrors(dictionary, [])
  {
    dictionary := map[];
    for i := 0 to 256
      invariant forall k :: k in dictionary <==> 0 <= k < i
      invariant forall k :: k in dictionary ==> dictionary[k] == [k]
    {
      dictionary := dictionary[i := [i]];
    }
  }

  /**
   * `decompress` on the codes read from the file: the first code becomes a
   * character, then each further code is looked up, or is the next free code,
   * or fails.
   */
  method Decompress(codes: seq<int>) returns (r: Result<seq<Char16>>)
    ensures r == LzwDecode(codes)
  {
    if codes == [] {
      return Err(EmptyInput);
    }
    var dictionary := SeedCodes();
    var firstCode := codes[0];
    var w := [ToChar(firstCode)];
    var result := w;
    var dictSize := 256;
    ghost var entries: seq<seq<Char16>> := [];
    for n := 1 to |codes|
      invariant dictSize == 256 + |entries|
      invariant Mirrors(dictionary, entries)
      invariant Run(Start(firstCode), codes[1..n]) == Ok(Decoder(entries, w, result))
    {
      var k := codes[n];
      assert codes[1..n + 1] == codes[1..n] + [k];
      RunSnoc(Start(firstCode), codes[1..n], k);
      var entry;
      if k in dictionary {
        assert Lookup(entries, k) == Some(dictionary[k]);
        entry := dictionary[k];
      } else if k == dictSize {
        entry := w + [w[0]];
      } else {
        assert Lookup(entries, k).None?;
        RunErrExtends(Start(firstCode), codes[1..], n);
        assert codes[1..][..n] == codes[1..n + 1];
        return Err(BadCode(k));
      }
      result := result + entry;
      MirrorsLearn(dictionary, entries, w + [entry[0]]);
      dictionary := dictionary[dictSize := w + [entry[0]]];
      dictSize := dictSize + 1;
      entries := entries + [w + [entry[0]]];
      w := entry;
    }
    assert codes[1..|codes|] == codes[1..];
    r := Ok(result);
  }

  /** Decoding [65, 256, 65] gives "AAAA": the middle code is the entry being learned. */
  lemma DecodeAAAA()
    ensures LzwDecode([65, 256, 65]) == Ok([65, 65, 65, 65])
  {
    var d0 := Start(65);
    assert d0 == Decoder([], [65], [65]);
    assert [65, 256, 65][1..] == [256, 65];
    assert [256, 65][..1] == [256];
    assert [256][..0] == [];
    assert Lookup(d0.entries, 256).None?;
    assert d0.w + [d0.w[0]] == [65, 65];
    assert Entry(d0, 256) == Some([65, 65]);
    var d1 := Decoder([[65, 65]], [65, 65], [65, 65, 65]);
    assert d0.entries + [d0.w + [65]] == [[65, 65]] && d0.out + [65, 65] == [65, 65, 65];
    assert Step(d0, 256) == Ok(d1);
    assert Run(d0, [256]) == Ok(d1);
    assert Entry(d1, 65) == Some([65]);
    assert d1.w + [65] == [65, 65, 65];
    assert d1.entries + [d1.w + [65]] == [[65, 65], [65, 65, 65]] && d1.out + [65] == [65, 65, 65, 65];
    assert Step(d1, 65) == Ok(Decoder([[65, 65], [65, 65, 65]], [65], [65, 65, 65, 65]));
  }

  /** The first code is not looked up: 256 decodes to the character 256. */
  lemma DecodeFirstUnchecked()
    ensures LzwDecode([256]) == Ok([256])
  {
    assert [256][1..] == [];
  }
}
