/** Reading a serialized symbol (`readSymbol`).

    The first byte selects the form: a penta of 15, 20, 30 or 35 bits whose
    payload follows in big-endian order, the empty penta, void, or a string in
    UTF-8 or CESU-8. A penta that has a cipher is returned as the cipher;
    otherwise the cipher is 0 and the symbol is given as its string. */
module Wire {
  import opened Types
  import opened Arith
  import opened Alphabet
  import opened Penta
  import opened Cipher

  /** The failures of `readSymbol`: input ending early (`EOFException`) and
      the three `IOException` messages it raises itself. */
  datatype ReadError = EndOfInput | ReservedBitSequence | IllegalLength | CodePointBeyondBmp

  /** What `readSymbol` delivers: the cipher it returns and, when that is 0,
      the string it stores into `result[0]`. */
  datatype Symbol =
    | Ciphered(cipher: Int32Bits)   // a nonzero cipher; `result[0]` untouched
    | Fallback(penta: nat)          // cipher 0, `result[0] = toString(penta)`
    | Text(text: JString)           // cipher 0, `result[0]` is the string read
    | Null                          // cipher 0, `result[0] = null`
  {
    /** The `int` that `readSymbol` returns. */
    function Returned(): int {
      if Ciphered? then cipher else 0
    }
  }

  /** A symbol read and the number of bytes of the input it occupied. */
  datatype Read = Read(symbol: Symbol, consumed: nat)

  /** The results of the string readers `readSymbol` calls into, which are not
      part of this model: the string `readUTFString` returns or the error it
      throws, the length `readCompactLong` returns or the error it throws, and
      the code points successive `readUTFChar` calls return until their input
      ends. Their bytes are not counted in `Read.consumed`. */
  datatype StringReads = StringReads(
    utf8: Result<Option<JString>, ReadError>,
    compactLength: Result<int, ReadError>,
    codePoints: seq<nat>)

  // ----- Header forms -----

  const VoidTag: Byte := 0xFF
  const EmptyPentaTag: Byte := 0xFE
  const CesuTag: Byte := 0xFD
  const Utf8Tag: Byte := 0xFC

  /** The first bytes that `readSymbol` rejects as reserved: 110xxxxx and 111110xx. */
  predicate IsReserved(first: Byte) {
    0xC0 <= first < 0xE0 || 0xF8 <= first < 0xFC
  }

  /** The number of bytes of a penta form with first byte `first`. */
  function HeaderLength(first: Byte): nat {
    if first < 0x80 then 2
    else if first < 0xC0 then 4
    else if first < 0xF0 then 3
    else if first < 0xF8 then 5
    else 1
  }

  /** `readUnsignedShort` at offset `k`. */
  function U16(input: seq<Byte>, k: nat): nat
    requires k + 2 <= |input|
  {
    input[k] as int * 0x100 + input[k + 1] as int
  }

  /** `readInt() & 0xFFFFFFFFL` at offset `k`: four bytes, big-endian, unsigned. */
  function U32(input: seq<Byte>, k: nat): nat
    requires k + 4 <= |input|
  {
    U16(input, k) * 0x1_0000 + U16(input, k + 2)
  }

  /** The penta of a header form whose bytes are all present; the first byte's
      payload bits are masked as the source does (`& 0x3F`, `& 0x0F`, `& 0x07`). */
  function HeaderPenta(input: seq<Byte>): (p: nat)
    requires |input| >= 1 && !IsReserved(input[0]) && input[0] < Utf8Tag
    requires |input| >= HeaderLength(input[0])
    ensures p < MaxPenta
    ensures input[0] < 0x80 ==> p < 0x8000
    ensures 0xE0 <= input[0] < 0xF0 ==> p < 0x10_0000
    ensures 0x80 <= input[0] < 0xC0 ==> p < 0x4000_0000
  {
    var i: int := input[0];
    if i < 0x80 then i * 0x100 + input[1] as int
    else if i < 0xC0 then (i % 0x40) * 0x100_0000 + input[1] as int * 0x1_0000 + U16(input, 2)
    else if i < 0xF0 then (i % 0x10) * 0x1_0000 + U16(input, 1)
    else (i % 0x08) * 0x1_0000_0000 + U32(input, 1)
  }

  // ----- The symbol of a penta -----

  /** The tail of `readSymbol` for a penta: measure its bit length, cipher it,
      and fall back to its string when it has no cipher. */
  function PentaSymbol(p: nat): (r: Symbol)
    requires p < MaxPenta
    ensures r.Ciphered? || r.Fallback?
    ensures r.Ciphered? ==> r.cipher != 0 && DecodeCipher(r.cipher) == Success(p)
    ensures r.Fallback? <==> PentaLength(p) > 30 && TopGroup(p) != SlashCode && TopGroup(p) != DollarCode
    ensures r.Fallback? ==> r.penta == p
  {
    var plen := PentaLength(p);
    var cipher := EncodePenta(p, plen);
    ShortPenta(p);
    if cipher == 0 then Fallback(p)
    else
      DecodeEncodePenta(p, plen);
      Ciphered(cipher)
  }

  /** The empty penta has 0 bits and the cipher 0x40000000. */
  lemma EmptyPentaSymbol()
    ensures PentaSymbol(0) == Ciphered(0x4000_0000)
  {
    PentaLengthUnique(0, 0);
    Pow2Values();
    TagRange(EncodePenta(0, 0));
  }

  // ----- CESU-8 characters -----

  /** The loop reading `count` characters with `readUTFChar`: it fails on the
      first code point beyond the basic multilingual plane, or when the code
      points run out first. */
  function ReadCharacters(codePoints: seq<nat>, count: nat): (r: Result<JString, ReadError>)
    ensures r.Success? <==> count <= |codePoints| && forall k | 0 <= k < count :: codePoints[k] <= 0xFFFF
    ensures r.Success? ==> |r.value| == count && forall k | 0 <= k < count :: r.value[k] == codePoints[k]
    ensures r.Failure? ==> r.error == EndOfInput || r.error == CodePointBeyondBmp
    ensures r == Failure(CodePointBeyondBmp) <==> exists k | 0 <= k < count && k < |codePoints| :: codePoints[k] > 0xFFFF
    decreases count
  {
    if count == 0 then Success([])
    else if codePoints == [] then Failure(EndOfInput)
    else if codePoints[0] > 0xFFFF then Failure(CodePointBeyondBmp)
    else
      match ReadCharacters(codePoints[1..], count - 1)
      case Failure(e) => Failure(e)
      case Success(rest) => Success([codePoints[0] as JChar] + rest)
  }

  /** The CESU-8 branch after `readCompactLong` gave `length`: -1 is null,
      0 the empty string, anything else below -1 or above `Integer.MAX_VALUE`
      illegal, and any other length reads that many characters. */
  function ReadCesu(length: int, codePoints: seq<nat>): (r: Result<Symbol, ReadError>)
    ensures length < -1 || length > MaxInt <==> r == Failure(IllegalLength)
    ensures length == -1 ==> r == Success(Null)
    ensures length == 0 ==> r == Success(Text([]))
    ensures r.Success? ==> r.value.Null? || r.value.Text?
    ensures r.Success? && r.value.Text? ==> |r.value.text| == length
    ensures 0 < length <= MaxInt ==> (r.Success? <==> ReadCharacters(codePoints, length).Success?)
    ensures 0 < length <= MaxInt && r.Failure? ==> r.error == ReadCharacters(codePoints, length).error
    ensures 0 < length <= MaxInt && r.Success? ==> r == Success(Text(ReadCharacters(codePoints, length).value))
    ensures r.Success? && r.value.Text? && length > 0 ==>
              forall k | 0 <= k < |r.value.text| :: r.value.text[k] == codePoints[k]
    ensures r == Failure(CodePointBeyondBmp) <==>
              0 < length <= MaxInt && exists k | 0 <= k < length && k < |codePoints| :: codePoints[k] > 0xFFFF
  {
    if length < -1 || length > MaxInt then Failure(IllegalLength)
    else if length == -1 then Success(Null)
    else if length == 0 then Success(Text([]))
    else
      match ReadCharacters(codePoints, length)
      case Failure(e) => Failure(e)
      case Success(chars) => Success(Text(chars))
  }

  // ----- readSymbol -----

  /** `readSymbol`: one symbol from the front of `input`. */
  function ReadSymbol(input: seq<Byte>, strings: StringReads): (r: Result<Read, ReadError>)
    ensures input == [] ==> r == Failure(EndOfInput)
    ensures input != [] && IsReserved(input[0]) ==> r == Failure(ReservedBitSequence)
    ensures input != [] && input[0] < Utf8Tag && !IsReserved(input[0]) ==>
              (r.Success? <==> HeaderLength(input[0]) <= |input|)
    ensures input != [] && input[0] < Utf8Tag && !IsReserved(input[0]) && |input| < HeaderLength(input[0]) ==>
              r == Failure(EndOfInput)
    ensures r.Success? ==> 1 <= r.value.consumed <= |input|
    ensures r.Success? && input[0] < Utf8Tag ==> r.value.consumed == HeaderLength(input[0])
    ensures r.Success? && (r.value.symbol.Ciphered? || r.value.symbol.Fallback?) ==> input[0] < Utf8Tag || input[0] == EmptyPentaTag
    ensures r.Success? && r.value.symbol.Ciphered? ==> r.value.symbol.cipher != 0
    ensures input != [] && input[0] == VoidTag ==> r == Success(Read(Null, 1))
    ensures input != [] && input[0] == EmptyPentaTag ==> r == Success(Read(Ciphered(0x4000_0000), 1))
    ensures input != [] && input[0] == Utf8Tag && strings.utf8.Failure? ==> r == Failure(strings.utf8.error)
    ensures input != [] && input[0] == Utf8Tag && strings.utf8.Success? ==>
              r.Success? && r.value.consumed == 1 && SymbolText(r.value.symbol) == strings.utf8.value
    ensures input != [] && input[0] == CesuTag && strings.compactLength.Failure? ==>
              r == Failure(strings.compactLength.error)
    ensures input != [] && input[0] == CesuTag && strings.compactLength.Success? ==>
              var c := ReadCesu(strings.compactLength.value, strings.codePoints);
              (r.Success? <==> c.Success?)
              && (r.Success? ==> r.value == Read(c.value, 1))
              && (r.Failure? ==> r.error == c.error)
  {
    EmptyPentaSymbol();
    if input == [] then Failure(EndOfInput)
    else
      var i := input[0];
      if IsReserved(i) then Failure(ReservedBitSequence)
      else if i < Utf8Tag then
        if |input| < HeaderLength(i) then Failure(EndOfInput)
        else Success(Read(PentaSymbol(HeaderPenta(input)), HeaderLength(i)))
      else if i == Utf8Tag then
        match strings.utf8
        case Failure(e) => Failure(e)
        case Success(text) => Success(Read(match text case None => Null case Some(t) => Text(t), 1))
      else if i == CesuTag then
        match strings.compactLength
        case Failure(e) => Failure(e)
        case Success(length) =>
          match ReadCesu(length, strings.codePoints)
          case Failure(e) => Failure(e)
          case Success(sym) => Success(Read(sym, 1))
      else if i == EmptyPentaTag then Success(Read(PentaSymbol(0), 1))
      else Success(Read(Null, 1))
  }

  // ----- The writer's forms -----

  /** Two bytes, big-endian, as `readUnsignedShort` expects them. */
  function Bytes16(x: nat): (bytes: seq<Byte>)
    requires x < 0x1_0000
    ensures |bytes| == 2 && bytes[0] as int * 0x100 + bytes[1] as int == x
  {
    [x / 0x100, x % 0x100]
  }

  /** The narrowest header form of a penta, as the format table lays them
      out: the empty penta as its own tag, then 15, 20, 30 and 35 bits. */
  function WritePenta(p: nat): (bytes: seq<Byte>)
    requires p < MaxPenta
    ensures |bytes| >= 1 && !IsReserved(bytes[0]) && bytes[0] != Utf8Tag && bytes[0] != CesuTag && bytes[0] != VoidTag
  {
    if p == 0 then [EmptyPentaTag]
    else if p < 0x8000 then Bytes16(p)
    else if p < 0x10_0000 then [0xE0 + p / 0x1_0000] + Bytes16(p % 0x1_0000)
    else if p < 0x4000_0000 then
      var h := p / 0x1_0000;
      [0x80 + h / 0x100, h % 0x100] + Bytes16(p % 0x1_0000)
    else
      var l := p % 0x1_0000_0000;
      [0xF0 + p / 0x1_0000_0000] + Bytes16(l / 0x1_0000) + Bytes16(l % 0x1_0000)
  }

  /** The 15-bit form: a first byte below 0x80 and one more byte carry any
      penta below 2^15, big-endian. */
  lemma ReadForm15(input: seq<Byte>, strings: StringReads, p: nat)
    requires p < 0x8000 && |input| >= 2
    requires input[0] as int == p / 0x100 && input[1] as int == p % 0x100
    ensures !IsReserved(input[0]) && input[0] < Utf8Tag && HeaderLength(input[0]) == 2
    ensures HeaderPenta(input) == p
    ensures ReadSymbol(input, strings) == Success(Read(PentaSymbol(p), 2))
  {
    ReadHeader(input, strings, p, 2);
  }

  /** The 20-bit form: tag 1110 with the top four payload bits, then a short,
      carry any penta below 2^20. */
  lemma ReadForm20(input: seq<Byte>, strings: StringReads, p: nat)
    requires p < 0x10_0000 && |input| >= 3
    requires input[0] as int == 0xE0 + p / 0x1_0000 && U16(input, 1) == p % 0x1_0000
    ensures !IsReserved(input[0]) && input[0] < Utf8Tag && HeaderLength(input[0]) == 3
    ensures HeaderPenta(input) == p
    ensures ReadSymbol(input, strings) == Success(Read(PentaSymbol(p), 3))
  {
    assert input[0] as int % 0x10 == p / 0x1_0000;
    ReadHeader(input, strings, p, 3);
  }

  /** The 30-bit form: tag 10 with the top six payload bits, a byte and a
      short, carry any penta below 2^30. */
  lemma ReadForm30(input: seq<Byte>, strings: StringReads, p: nat, h: nat)
    requires p < 0x4000_0000 && |input| >= 4 && h == p / 0x1_0000
    requires input[0] as int == 0x80 + h / 0x100 && input[1] as int == h % 0x100
    requires U16(input, 2) == p % 0x1_0000
    ensures !IsReserved(input[0]) && input[0] < Utf8Tag && HeaderLength(input[0]) == 4
    ensures HeaderPenta(input) == p
    ensures ReadSymbol(input, strings) == Success(Read(PentaSymbol(p), 4))
  {
    assert input[0] as int % 0x40 == h / 0x100;
    assert (h / 0x100) * 0x100 + h % 0x100 == h;
    assert (h / 0x100) * 0x100_0000 + (h % 0x100) * 0x1_0000 == h * 0x1_0000;
    ReadHeader(input, strings, p, 4);
  }

  /** The 35-bit form: tag 11110 with the top three payload bits, then an
      int, carry any penta below 2^35. */
  lemma ReadForm35(input: seq<Byte>, strings: StringReads, p: nat, l: nat)
    requires p < MaxPenta && |input| >= 5 && l == p % 0x1_0000_0000
    requires input[0] as int == 0xF0 + p / 0x1_0000_0000
    requires U16(input, 1) == l / 0x1_0000 && U16(input, 3) == l % 0x1_0000
    ensures !IsReserved(input[0]) && input[0] < Utf8Tag && HeaderLength(input[0]) == 5
    ensures HeaderPenta(input) == p
    ensures ReadSymbol(input, strings) == Success(Read(PentaSymbol(p), 5))
  {
    assert input[0] as int % 0x08 == p / 0x1_0000_0000;
    assert U32(input, 1) == l;
    ReadHeader(input, strings, p, 5);
  }

  /** A complete penta header reads as the symbol of its penta. */
  lemma ReadHeader(input: seq<Byte>, strings: StringReads, p: nat, n: nat)
    requires |input| >= 1 && !IsReserved(input[0]) && input[0] < Utf8Tag
    requires HeaderLength(input[0]) == n <= |input| && HeaderPenta(input) == p
    ensures ReadSymbol(input, strings) == Success(Read(PentaSymbol(p), n))
  {
  }

  /** Every penta written in its narrowest form reads back as that penta's
      symbol, consuming exactly the written bytes, whatever follows them. */
  lemma ReadWritePenta(p: nat, rest: seq<Byte>, strings: StringReads)
    requires p < MaxPenta
    ensures ReadSymbol(WritePenta(p) + rest, strings) == Success(Read(PentaSymbol(p), |WritePenta(p)|))
  {
    var w := WritePenta(p);
    var input := w + rest;
    if p == 0 {
      assert input[0] == EmptyPentaTag;
    } else if p < 0x8000 {
      assert input[0] == w[0] && input[1] == w[1];
      ReadForm15(input, strings, p);
    } else if p < 0x10_0000 {
      var lo := Bytes16(p % 0x1_0000);
      assert w == [0xE0 + p / 0x1_0000] + lo;
      assert input[0] == w[0] && input[1] == lo[0] && input[2] == lo[1];
      ReadForm20(input, strings, p);
    } else if p < 0x4000_0000 {
      var h := p / 0x1_0000;
      var lo := Bytes16(p % 0x1_0000);
      assert w == [0x80 + h / 0x100, h % 0x100] + lo;
      assert input[0] == w[0] && input[1] == w[1] && input[2] == lo[0] && input[3] == lo[1];
      ReadForm30(input, strings, p, h);
    } else {
      var l := p % 0x1_0000_0000;
      var hi := Bytes16(l / 0x1_0000);
      var lo := Bytes16(l % 0x1_0000);
      assert w == [0xF0 + p / 0x1_0000_0000] + hi + lo;
      assert input[0] == w[0] && input[1] == hi[0] && input[2] == hi[1] && input[3] == lo[0] && input[4] == lo[1];
      ReadForm35(input, strings, p, l);
    }
  }

  /** The text a read symbol stands for: a cipher decoded and unpacked, a
      fallback penta unpacked, a string as read, or nothing for null. */
  function SymbolText(sym: Symbol): Option<JString> {
    match sym
    case Ciphered(c) => Decode(c)
    case Fallback(p) => if p < MaxPenta then ToString(p) else None
    case Text(t) => Some(t)
    case Null => None
  }

  /** A packed symbol written as its penta reads back as that symbol, and the
      cipher `readSymbol` returns for it is exactly `encode` of the symbol. */
  lemma ReadPackedSymbol(s: JString, rest: seq<Byte>, strings: StringReads)
    requires Pack(s).Some?
    ensures var r := ReadSymbol(WritePenta(PackValue(s)) + rest, strings);
            r.Success? && SymbolText(r.value.symbol) == Some(s)
            && r.value.symbol.Returned() == Encode(Some(s))
  {
    var p := PackValue(s);
    ReadWritePenta(p, rest, strings);
    PackedLengthRecovered(s);
    UnpackPack(s);
    EncodeCases(s);
    var sym := PentaSymbol(p);
    if sym.Ciphered? {
      assert Decode(sym.cipher) == ToString(p);
    }
  }
}
