/** Value types shared by the symbol codec model. */
module Types {

  /** An optional value; `None` stands for a Java/C `null`. */
  datatype Option<+T> = None | Some(value: T)

  /** The outcome of an operation that can fail with an error code or exception. */
  datatype Result<+T, +E> = Success(value: T) | Failure(error: E)

  /** A UTF-16 code unit: the source's 16-bit `jChar` (Java `char`). */
  type JChar = c: int | 0 <= c < 0x1_0000

  /** A Java `String`: a sequence of UTF-16 code units. */
  type JString = seq<JChar>

  /** An unsigned byte as read from the wire. */
  type Byte = b: int | 0 <= b < 0x100

  /** The bit pattern of a 32-bit `jInt`, read as an unsigned number. */
  type Int32Bits = x: int | 0 <= x < 0x1_0000_0000

  /** The largest value of a 32-bit signed `jInt` (`Integer.MAX_VALUE`). */
  const MaxInt: int := 0x7FFF_FFFF

  /** The code units of a Dafny string literal whose characters all lie in the basic multilingual plane. */
  function Str(s: string): JString
    requires forall i | 0 <= i < |s| :: s[i] as int < 0x1_0000
  {
    if s == [] then [] else [s[0] as int] + Str(s[1..])
  }
}
