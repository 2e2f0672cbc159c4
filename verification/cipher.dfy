/** The 32-bit cipher form of a penta.

    A cipher keeps the low 30 bits of the penta and records in its top two
    bits which form it has: 1 for pentas of up to 30 bits, 2 and 3 for 35-bit
    pentas whose top 5-bit group is the code of '/' or of '$'. Cipher 0 is
    void; every other penta cannot be ciphered. */
module Cipher {
  import opened Types
  import opened Arith
  import opened Alphabet
  import opened Penta

  /** The top two bits of a cipher: `(unsigned) cipher >> 30`. */
  function Tag(cipher: Int32Bits): nat {
    Shr(cipher, 30)
  }

  /** The low 30 bits of a cipher: `cipher & 0x3FFFFFFF`. */
  function Payload(cipher: Int32Bits): nat {
    Low(cipher, 30)
  }

  /** The 5-bit group above the low 30 bits of a penta: `(unsigned) penta >> 30`. */
  function TopGroup(penta: nat): nat {
    Shr(penta, 30)
  }

  /** The code of '/', the top group of cipher tag 2. */
  const SlashCode: nat := 28
  /** The code of '$', the top group of cipher tag 3. */
  const DollarCode: nat := 29

  lemma SlashDollarCodes()
    ensures PentaOf('/' as int) == SlashCode && PentaOf('$' as int) == DollarCode
  {
  }

  /** `encodePenta`: the cipher of a penta of `plen` bits, or 0 when it has none.
      A penta of up to 30 bits is tagged 1; a wider one keeps its low 30 bits
      under tag 2 or 3 when its top group is the code of '/' or '$'. */
  function EncodePenta(penta: nat, plen: int): (r: Int32Bits)
    requires penta < MaxPenta
    ensures plen <= 30 && penta < Pow2(30) ==> r != 0 && Tag(r) == 1 && Payload(r) == penta
    ensures plen > 30 ==> (r != 0 <==> TopGroup(penta) == SlashCode || TopGroup(penta) == DollarCode)
    ensures plen > 30 && TopGroup(penta) == SlashCode ==> Tag(r) == 2 && Payload(r) == Low(penta, 30)
    ensures plen > 30 && TopGroup(penta) == DollarCode ==> Tag(r) == 3 && Payload(r) == Low(penta, 30)
  {
    SlashDollarCodes();
    SplitAt30(penta);
    if plen <= 30 then
      if penta < Pow2(30) then
        ShortCipher(penta);
        ShortForm(penta)
      else
        ShortForm(penta)
    else if TopGroup(penta) == PentaOf('/' as int) then
      TagOf(2, Low(penta, 30), Low(penta, 30) + 0x8000_0000);
      Low(penta, 30) + 0x8000_0000
    else if TopGroup(penta) == PentaOf('$' as int) then
      TagOf(3, Low(penta, 30), Low(penta, 30) + 0xC000_0000);
      Low(penta, 30) + 0xC000_0000
    else
      0
  }

  /** `(jInt) penta + 0x40000000`: the penta truncated to 32 bits, plus tag 1, wrapping around. */
  function ShortForm(penta: nat): Int32Bits {
    (Low(penta, 32) + 0x4000_0000) % 0x1_0000_0000
  }

  /** The truncation to 32 bits keeps a penta below 2^30 intact, so its short form carries tag 1. */
  lemma ShortCipher(penta: nat)
    requires penta < Pow2(30)
    ensures ShortForm(penta) != 0 && Tag(ShortForm(penta)) == 1 && Payload(ShortForm(penta)) == penta
  {
    Pow2Values();
    LowOfSmall(penta, 32);
    TagOf(1, penta, ShortForm(penta));
  }

  /** A cipher assembled from a tag and a payload gives them back. */
  lemma TagOf(tag: nat, payload: nat, cipher: nat)
    requires tag < 4 && payload < 0x4000_0000
    requires cipher == tag * 0x4000_0000 + payload
    ensures cipher < 0x1_0000_0000
    ensures tag >= 1 ==> cipher != 0
    ensures Tag(cipher) == tag && Payload(cipher) == payload
  {
    Pow2Values();
    assert Shl(tag, 30) == tag * 0x4000_0000 by {
      ShlAsProduct(tag);
    }
    Split(cipher, tag, 30, payload);
  }

  /** `tag << 30` for the four tags. */
  lemma ShlAsProduct(tag: nat)
    requires tag < 4
    ensures Shl(tag, 30) == tag * 0x4000_0000
  {
    ShlMul(tag, 30);
    Pow2Values();
  }

  /** `decodeCipher`: the penta of a cipher. Tag 0 is an illegal argument;
      tags 2 and 3 restore the top group of '/' or '$' above the payload.
      Every decoded penta encodes back to the same cipher. */
  function DecodeCipher(cipher: Int32Bits): (r: Result<nat, CodecError>)
    ensures r.Failure? <==> Tag(cipher) == 0
    ensures r.Failure? ==> r.error == IllegalArgument
    ensures r.Success? ==> r.value < MaxPenta && EncodePenta(r.value, PentaLength(r.value)) == cipher
  {
    TagRange(cipher);
    var tag, payload := Tag(cipher), Payload(cipher);
    if tag == 0 then Failure(IllegalArgument)
    else if tag == 1 then
      DecodedShort(cipher, payload);
      Success(payload)
    else if tag == 2 then
      var p := SlashCode * 0x4000_0000 + payload;
      DecodedLong(cipher, SlashCode, p);
      Success(p)
    else
      var p := DollarCode * 0x4000_0000 + payload;
      DecodedLong(cipher, DollarCode, p);
      Success(p)
  }

  /** Every cipher splits into a tag below 4 above a 30-bit payload. */
  lemma TagRange(cipher: Int32Bits)
    ensures Tag(cipher) < 4 && Payload(cipher) < 0x4000_0000
    ensures cipher == Tag(cipher) * 0x4000_0000 + Payload(cipher)
  {
    Pow2Values();
    ShrBelow(cipher, 30, 2);
    Decompose(cipher, 30);
    ShlAsProduct(Tag(cipher));
  }

  /** A tag-1 cipher decodes to its payload, which encodes back to it. */
  lemma DecodedShort(cipher: Int32Bits, p: nat)
    requires Tag(cipher) == 1 && p == Payload(cipher)
    ensures p < MaxPenta && EncodePenta(p, PentaLength(p)) == cipher
  {
    Pow2Values();
    TagRange(cipher);
    var l := PentaLength(p);
    if l > 30 {
      FiveApart(30, l);
      Pow2Monotone(30, l - 5);
    }
    TagRange(EncodePenta(p, l));
  }

  /** A tag-2 or tag-3 cipher decodes to a 35-bit penta whose top group is
      the code of '/' or '$', which encodes back to it. */
  lemma DecodedLong(cipher: Int32Bits, top: nat, p: nat)
    requires (Tag(cipher) == 2 && top == SlashCode) || (Tag(cipher) == 3 && top == DollarCode)
    requires p == top * 0x4000_0000 + Payload(cipher)
    ensures p < MaxPenta && EncodePenta(p, PentaLength(p)) == cipher
  {
    TagRange(cipher);
    LongPenta(top, Payload(cipher), p);
    TagRange(EncodePenta(p, PentaLength(p)));
  }

  /** A 30-bit payload under the top group of '/' or '$' is a 35-bit penta. */
  lemma LongPenta(top: nat, payload: nat, p: nat)
    requires (top == SlashCode || top == DollarCode) && payload < 0x4000_0000
    requires p == top * 0x4000_0000 + payload
    ensures p < MaxPenta && PentaLength(p) > 30
    ensures TopGroup(p) == top && Low(p, 30) == payload
  {
    Pow2Values();
    ShlMul(top, 30);
    ShlBelow(top, payload, 5, 30);
    Split(p, top, 30, payload);
    ShlAtLeast(top, 0, 30);
    var l := PentaLength(p);
    if l <= 30 {
      Pow2Monotone(l, 30);
    }
  }

  /** Decoding undoes `encodePenta` for every penta that has a cipher and whose
      bit length is honest: one of up to 30 bits is below 2^30. */
  lemma DecodeEncodePenta(penta: nat, plen: int)
    requires penta < MaxPenta && (plen <= 30 ==> penta < Pow2(30))
    requires EncodePenta(penta, plen) != 0
    ensures DecodeCipher(EncodePenta(penta, plen)) == Success(penta)
  {
    var r := EncodePenta(penta, plen);
    if plen <= 30 {
      assert Tag(r) == 1 && Payload(r) == penta;
    } else {
      DecodeEncodeLong(penta, plen);
    }
  }

  /** `DecodeEncodePenta` for a penta wider than 30 bits: its top group is
      restored from the tag. */
  lemma DecodeEncodeLong(penta: nat, plen: int)
    requires penta < MaxPenta && plen > 30 && EncodePenta(penta, plen) != 0
    ensures DecodeCipher(EncodePenta(penta, plen)) == Success(penta)
  {
    if TopGroup(penta) == SlashCode {
      DecodeSlashLong(penta, plen);
    } else {
      DecodeDollarLong(penta, plen);
    }
  }

  /** `DecodeEncodeLong` for a penta whose top group is the code of '/'. */
  lemma DecodeSlashLong(penta: nat, plen: int)
    requires penta < MaxPenta && plen > 30 && TopGroup(penta) == SlashCode
    ensures DecodeCipher(EncodePenta(penta, plen)) == Success(penta)
  {
    SplitAt30(penta);
    var r := EncodePenta(penta, plen);
    assert Tag(r) == 2 && Payload(r) == Low(penta, 30);
  }

  /** `DecodeEncodeLong` for a penta whose top group is the code of '$'. */
  lemma DecodeDollarLong(penta: nat, plen: int)
    requires penta < MaxPenta && plen > 30 && TopGroup(penta) == DollarCode
    ensures DecodeCipher(EncodePenta(penta, plen)) == Success(penta)
  {
    SplitAt30(penta);
    var r := EncodePenta(penta, plen);
    assert Tag(r) == 3 && Payload(r) == Low(penta, 30);
  }

  /** A penta is its top group times 2^30 above its low 30 bits. */
  lemma SplitAt30(penta: nat)
    ensures penta == TopGroup(penta) * 0x4000_0000 + Low(penta, 30)
    ensures Low(penta, 30) < 0x4000_0000
  {
    Decompose(penta, 30);
    ShlMul(TopGroup(penta), 30);
    Pow2Values();
  }

  // ----- Symbols -----

  /** The symbols `encode` turns into a nonzero cipher: packable, and either
      at most 30 bits wide or 35 bits wide starting with '/' or '$'. */
  predicate Encodable(s: JString) {
    |s| <= MaxSymbolLength && AllEligible(s) && PackLength(s) <= MaxBits
    && (PackLength(s) <= 30 || s[0] == '/' as int || s[0] == '$' as int)
  }

  /** `encode`: the cipher of a symbol, or 0 when the symbol is null or cannot
      be ciphered. A nonzero cipher decodes to the symbol's packed form. */
  function Encode(symbol: Option<JString>): (r: Int32Bits)
    ensures r != 0 <==> symbol.Some? && Encodable(symbol.value)
    ensures r != 0 ==> DecodeCipher(r) == Success(PackValue(symbol.value))
  {
    match symbol
    case None => 0
    case Some(s) =>
      match Pack(s)
      case None => 0
      case Some(p) =>
        EncodeCases(s);
        EncodePenta(p.value, p.length)
  }

  /** What `encodePenta` makes of a packed symbol. */
  lemma EncodeCases(s: JString)
    requires AllEligible(s) && PackLength(s) <= MaxBits
    ensures PackValue(s) < MaxPenta
    ensures PentaLength(PackValue(s)) == PackLength(s)
    ensures EncodePenta(PackValue(s), PackLength(s)) != 0
            <==> PackLength(s) <= 30 || s[0] == '/' as int || s[0] == '$' as int
    ensures EncodePenta(PackValue(s), PackLength(s)) != 0
            ==> DecodeCipher(EncodePenta(PackValue(s), PackLength(s))) == Success(PackValue(s))
  {
    PackedLengthRecovered(s);
    var v, l := PackValue(s), PackLength(s);
    if l <= 30 {
      Pow2Monotone(l, 30);
    }
    CipheredWhen(s);
    if EncodePenta(v, l) != 0 {
      DecodeEncodePenta(v, l);
    }
  }

  /** A packed symbol has a cipher exactly when it is at most 30 bits wide or leads with '/' or '$'. */
  lemma CipheredWhen(s: JString)
    requires AllEligible(s) && PackLength(s) <= MaxBits && PackValue(s) < MaxPenta
    ensures EncodePenta(PackValue(s), PackLength(s)) != 0
            <==> PackLength(s) <= 30 || s[0] == '/' as int || s[0] == '$' as int
  {
    var v, l := PackValue(s), PackLength(s);
    if l <= 30 {
      NarrowCipher(v, l);
    } else {
      LeadChunk(s);
      assert l - 5 == 30;
      LeadIsSlashOrDollar(s[0]);
      WideCipher(v, l, LeadGroup(s[0]));
    }
  }

  /** A penta of at most 30 bits always has a cipher. */
  lemma NarrowCipher(v: nat, l: nat)
    requires v < Pow2(l) && l <= 30 && v < MaxPenta
    ensures EncodePenta(v, l) != 0
  {
    Pow2Monotone(l, 30);
  }

  /** A penta wider than 30 bits has a cipher exactly when its top group is the code of '/' or '$'. */
  lemma WideCipher(v: nat, l: nat, top: nat)
    requires v < MaxPenta && l > 30 && TopGroup(v) == top
    ensures EncodePenta(v, l) != 0 <==> top == SlashCode || top == DollarCode
  {
  }

  /** Only '/' and '$' have a leading group equal to the code of '/' or of '$'. */
  lemma LeadIsSlashOrDollar(c: int)
    requires IsEligible(c)
    ensures LeadGroup(c) == SlashCode || LeadGroup(c) == DollarCode <==> c == '/' as int || c == '$' as int
  {
  }

  /** The symbol a cipher stands for: its decoded penta, unpacked. This is the
      inverse the source leaves to `decodeCipher` followed by `toString`. */
  function Decode(cipher: Int32Bits): Option<JString> {
    match DecodeCipher(cipher)
    case Failure(_) => None
    case Success(p) => ToString(p)
  }

  /** Every symbol with a cipher is recovered from it. */
  lemma DecodeEncode(s: JString)
    requires Encode(Some(s)) != 0
    ensures Decode(Encode(Some(s))) == Some(s)
  {
  }

  /** Every cipher that decodes to a symbol is that symbol's cipher. */
  lemma EncodeDecode(cipher: Int32Bits)
    ensures Decode(cipher).Some? ==> Encode(Decode(cipher)) == cipher
  {
  }

  /** `WILDCARD_CIPHER`: the cipher of the one-character symbol "*". */
  const WildcardCipher: Int32Bits := Encode(Some(['*' as int]))

  /** '*' has the 10-bit code 0x3C8, so its cipher is that code under tag 1. */
  lemma WildcardValue()
    ensures WildcardCipher == 0x4000_03C8
  {
    var s: JString := ['*' as int];
    LongsOverRun(32, 36, true);
    LongsOverRun(36, 37, false);
    LongsOverRun(37, 39, true);
    LongsOverRun(39, 40, false);
    LongsOverRun(40, 42, true);
    assert PentaOf('*' as int) == 0x3C8;
    assert s[1..] == [];
    assert AllEligible(s);
    ShlZero(10);
    assert PackValue(s) == 0x3C8 && PackLength(s) == 10;
    Pow2Values();
    assert Pack(s) == Some(Penta(0x3C8, 10));
    assert WildcardCipher == EncodePenta(0x3C8, 10);
    TagRange(EncodePenta(0x3C8, 10));
  }

  /** The empty symbol has cipher 0x40000000; "IBM" packs its 5-bit codes 9, 2 and 13. */
  lemma EncodeExamples()
    ensures Encode(Some([])) == 0x4000_0000
    ensures Encode(Some(Str("IBM"))) == 0x4000_244D
  {
    TagRange(EncodePenta(0, 0));
    Pow2Values();
    EncodeIbm();
  }

  /** The cipher of "IBM" is its packed value under tag 1. */
  lemma EncodeIbm()
    ensures Encode(Some(Str("IBM"))) == 0x4000_244D
  {
    PackIbm();
    Pow2Values();
    TagRange(EncodePenta(0x244D, 15));
  }

  /** "IBM" packs its 5-bit codes 9, 2 and 13 into 0x244D, 15 bits. */
  lemma PackIbm()
    ensures Pack(Str("IBM")) == Some(Penta(0x244D, 15))
  {
    var s := Str("IBM");
    assert s == [73, 66, 77];
    var t, u := s[1..], s[1..][1..];
    assert t == [66, 77] && u == [77] && u[1..] == [];
    ShlMul(13, 0);
    assert PackLength(u) == 5 && PackValue(u) == 13;
    ShlMul(2, 5);
    Pow2Values();
    assert PackLength(t) == 10 && PackValue(t) == 77;
    ShlMul(9, 10);
    assert PackLength(s) == 15 && PackValue(s) == 0x244D;
  }

  // ----- The loop of `encode` -----

  /** `encode` as the source writes it: one pass over the characters,
      shifting each character's code in by the width from the table, the
      invalid width 64 included, and rejecting a code unit at or above 128
      on the spot. */
  method EncodeLoop(symbol: Option<JString>) returns (r: Int32Bits)
    ensures r == Encode(symbol)
  {
    if symbol.None? {
      return 0;
    }
    var s := symbol.value;
    if |s| > MaxSymbolLength {
      return 0;
    }
    var penta: nat := 0;
    var plen: nat := 0;
    var i := 0;
    while i < |s|
      invariant 0 <= i <= |s|
      invariant AllEligible(s[..i]) ==> penta == PackValue(s[..i]) && plen == PackLength(s[..i])
      invariant !AllEligible(s[..i]) ==> plen >= InvalidWidth
    {
      var c := s[i];
      if c >= TableSize {
        NotEligibleFrom(s, i);
        return 0;
      }
      EligibleSnoc(s[..i], c);
      assert s[..i + 1] == s[..i] + [c];
      if AllEligible(s[..i]) && IsEligible(c) {
        PackSnoc(s[..i], c);
      }
      CodeRanges(c);
      penta := Shl(penta, WidthOf(c)) + PentaOf(c);
      plen := plen + WidthOf(c);
      i := i + 1;
    }
    assert s[..i] == s;
    if plen > MaxBits {
      return 0;
    }
    if AllEligible(s) {
      PackedLengthRecovered(s);
    }
    r := EncodePenta(penta, plen);
  }

  /** Appending one character keeps every character eligible exactly when it is eligible. */
  lemma EligibleSnoc(s: JString, c: JChar)
    ensures AllEligible(s + [c]) <==> AllEligible(s) && IsEligible(c)
  {
    var t := s + [c];
    AllEligibleAt(s);
    AllEligibleAt(t);
    assert t[|s|] == c;
    assert forall i | 0 <= i < |s| :: t[i] == s[i];
  }

  /** A code unit at or above 128 makes the whole symbol ineligible. */
  lemma NotEligibleFrom(s: JString, i: nat)
    requires i < |s| && s[i] >= TableSize
    ensures !AllEligible(s)
  {
    AllEligibleAt(s);
    assert !IsEligible(s[i]);
  }
}
