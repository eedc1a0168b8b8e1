/** Java primitive types and the failure outcomes shared by the codecs. */
module Common {

  /** Java `short`: a signed 16-bit integer. */
  type Short = x: int | -0x8000 <= x < 0x8000

  /** Java `int`: a signed 32-bit integer. */
  type Int32 = x: int | -0x8000_0000 <= x < 0x8000_0000

  /** Java `char`: an unsigned 16-bit UTF-16 code unit (surrogates included). */
  type Char16 = x: int | 0 <= x < 0x1_0000

  /** The Java narrowing conversion `(short) x`: keep the low 16 bits, read them as signed. */
  function ToShort(x: int): (r: Short)
    ensures (r - x) % 0x1_0000 == 0
    ensures -0x8000 <= x < 0x8000 ==> r == x
  {
    var low := x % 0x1_0000;
    if low < 0x8000 then low else low - 0x1_0000
  }

  /** The Java narrowing conversion `(char) x`: keep the low 16 bits. */
  function ToChar(x: int): (r: Char16)
    ensures (r - x) % 0x1_0000 == 0
    ensures 0 <= x < 0x1_0000 ==> r == x
  {
    x % 0x1_0000
  }

  /** The ways an encode or decode call fails. */
  datatype Error =
    | EmptyInput        // nothing to encode or decode
    | CorruptStream     // a structurally invalid or truncated artifact
    | BadCode(code: int)  // an LZW code neither known nor the next free slot
    | UnsupportedValue  // a symbol the codec cannot represent
    | NullReference     // the source dereferences a missing tree node or map entry

  datatype Result<T> = Ok(value: T) | Err(error: Error)

  datatype Option<T> = None | Some(value: T)

  /** Concatenation regroups freely; stated once so that loops appending to an output need not re-derive it. */
  lemma AppendAssoc<T>(a: seq<T>, b: seq<T>, c: seq<T>)
    ensures a + b + c == a + (b + c)
  {
  }
}
