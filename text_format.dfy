/**
 * The Java text primitives the text Huffman file format depends on: reading a
 * file line by line, splitting a line at ':' and printing and parsing a
 * decimal `int`.
 */
module TextFormat {
  import opened Common

  /** A character that ends a line for `BufferedReader.readLine`. */
  predicate IsBreak(c: char)
  {
    c == '\n' || c == '\r'
  }

  /** A string with no line terminator in it. */
  predicate NoBreak(s: string)
  {
    forall i :: 0 <= i < |s| ==> !IsBreak(s[i])
  }

  /** The index of the first line terminator, or the length when there is none. */
  function LineEnd(s: string): (k: nat)
    ensures k <= |s| && NoBreak(s[..k])
    ensures k < |s| ==> IsBreak(s[k])
  {
    if s == [] || IsBreak(s[0]) then 0
    else
      var k := LineEnd(s[1..]);
      assert s[..k + 1] == [s[0]] + s[1..][..k];
      k + 1
  }

  /**
   * The successive results of `readLine` until it returns null: lines end at
   * "\n", "\r" or "\r\n", terminators are dropped, and a last line without a
   * terminator is still returned.
   */
  function ReadLines(s: string): seq<string>
    decreases |s|
  {
    if s == [] then []
    else
      var k := LineEnd(s);
      if k == |s| then [s]
      else
        var next := if s[k] == '\r' && k + 1 < |s| && s[k + 1] == '\n' then k + 2 else k + 1;
        [s[..k]] + ReadLines(s[next..])
  }

  lemma {:induction false} LineEndAppend(a: string, b: string)
    requires NoBreak(a)
    ensures LineEnd(a + b) == |a| + LineEnd(b)
  {
    if a != [] {
      assert (a + b)[1..] == a[1..] + b;
      LineEndAppend(a[1..], b);
    } else {
      assert a + b == b;
    }
  }

  /** A line followed by "\n" reads back as that line, then whatever follows. */
  lemma ReadLinesCons(line: string, rest: string)
    requires NoBreak(line)
    ensures ReadLines(line + "\n" + rest) == [line] + ReadLines(rest)
  {
    var s := line + "\n" + rest;
    assert s == line + ("\n" + rest);
    LineEndAppend(line, "\n" + rest);
    assert LineEnd(s) == |line| && s[|line|] == '\n';
    assert s[..|line|] == line;
    assert s[|line| + 1..] == rest;
  }

  /** A final piece without terminator is one more line, or none when it is empty. */
  lemma ReadLinesLast(s: string)
    requires NoBreak(s)
    ensures ReadLines(s) == (if s == [] then [] else [s])
  {
    if s != [] {
      LineEndAppend(s, []);
      assert s + [] == s;
    }
  }

  /** The pieces of `s` between the ':' characters; never empty. */
  function Fields(s: string): (r: seq<string>)
    ensures |r| >= 1
  {
    if s == [] then [[]]
    else
      var f := Fields(s[1..]);
      if s[0] == ':' then [[]] + f else [[s[0]] + f[0]] + f[1..]
  }

  /** Drop the empty strings at the end, as `split` does with limit 0. */
  function DropTrailingEmpty(parts: seq<string>): (r: seq<string>)
    ensures |r| <= |parts| && r == parts[..|r|]
    ensures r == [] || r[|r| - 1] != []
    ensures forall k :: |r| <= k < |parts| ==> parts[k] == []
  {
    if parts == [] || parts[|parts| - 1] != [] then parts
    else DropTrailingEmpty(parts[..|parts| - 1])
  }

  /**
   * `line.split(":")`: a line with no ':' is returned whole (even when it is
   * empty); otherwise the pieces between colons, with trailing empty pieces
   * removed.
   */
  function Split(line: string): seq<string>
  {
    if ':' !in line then [line] else DropTrailingEmpty(Fields(line))
  }

  lemma {:induction false} FieldsNoColon(s: string)
    requires ':' !in s
    ensures Fields(s) == [s]
  {
    if s != [] {
      FieldsNoColon(s[1..]);
      assert [s[0]] + s[1..] == s;
    }
  }

  lemma {:induction false} FieldsColon(a: string, b: string)
    requires ':' !in a
    ensures Fields(a + ":" + b) == [a] + Fields(b)
  {
    if a == [] {
      assert (a + ":" + b)[1..] == b;
    } else {
      assert (a + ":" + b)[1..] == a[1..] + ":" + b;
      FieldsColon(a[1..], b);
      assert [a[0]] + a[1..] == a;
    }
  }

  /** A `key:value` line splits into two parts exactly when the value is non-empty. */
  lemma SplitPair(key: string, value: string)
    requires ':' !in key && ':' !in value && key != []
    ensures Split(key + ":" + value) == if value == [] then [key] else [key, value]
  {
    assert (key + ":" + value)[|key|] == ':';
    FieldsColon(key, value);
    FieldsNoColon(value);
    assert [key] + [value] == [key, value];
    if value == [] {
      assert [key, value][..1] == [key];
      assert DropTrailingEmpty([key]) == [key];
    }
  }

  /** The ASCII decimal digits. */
  predicate IsDigit(c: char)
  {
    '0' <= c <= '9'
  }

  function DigitChar(d: nat): char
    requires d < 10
  {
    ['0', '1', '2', '3', '4', '5', '6', '7', '8', '9'][d]
  }

  /** `Integer.toString(n)` for a non-negative `n`: decimal, no sign, no leading zeros. */
  function IntToString(n: nat): (s: string)
    ensures s != [] && forall i :: 0 <= i < |s| ==> IsDigit(s[i])
  {
    if n < 10 then [DigitChar(n)] else IntToString(n / 10) + [DigitChar(n % 10)]
  }

  /** The value of a string of decimal digits, most significant first. */
  function DigitsValue(s: string): nat
    requires forall i :: 0 <= i < |s| ==> IsDigit(s[i])
  {
    if s == [] then 0 else 10 * DigitsValue(s[..|s| - 1]) + DigitOf(s[|s| - 1])
  }

  function DigitOf(c: char): (d: nat)
    requires IsDigit(c)
    ensures d < 10 && DigitChar(d) == c
  {
    c as int - '0' as int
  }

  /**
   * `Integer.parseInt(s)`: an optional sign and at least one ASCII digit, with
   * the value inside the `int` range; anything else throws, modelled as a
   * corrupt stream. Java also accepts the decimal digits of other Unicode
   * scripts; this model does not.
   */
  function ParseInt(s: string): (r: Result<Int32>)
    ensures r.Ok? ==> s != [] && (s[0] == '-' || IsDigit(s[0]) || s[0] == '+')
    ensures r.Ok? && r.value < 0 ==> s[0] == '-'
  {
    if s == [] then Err(CorruptStream)
    else
      var digits := if s[0] == '-' || s[0] == '+' then s[1..] else s;
      if digits == [] || !(forall i :: 0 <= i < |digits| ==> IsDigit(digits[i])) then Err(CorruptStream)
      else
        var v: int := if s[0] == '-' then -(DigitsValue(digits) as int) else DigitsValue(digits);
        if -0x8000_0000 <= v < 0x8000_0000 then Ok(v) else Err(CorruptStream)
  }

  lemma {:induction false} DigitsOfInt(n: nat)
    ensures DigitsValue(IntToString(n)) == n
  {
    var s := IntToString(n);
    if n >= 10 {
      DigitsOfInt(n / 10);
      assert s[..|s| - 1] == IntToString(n / 10);
    }
  }

  /** Printing a non-negative `int` in decimal and parsing it back gives the same number. */
  lemma ParsePrinted(n: nat)
    requires n < 0x8000_0000
    ensures ParseInt(IntToString(n)) == Ok(n)
  {
    DigitsOfInt(n);
  }

  /** A printed number is never a ':'-bearing or a line-breaking string. */
  lemma PrintedIsPlain(n: nat)
    ensures ':' !in IntToString(n) && NoBreak(IntToString(n))
  {
  }
}
