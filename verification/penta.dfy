/** Packing symbols into pentas: the characters' codes concatenated
    most-significant-first into one number of at most 35 bits, the recovery of
    the bit length from the number alone, and the inverse unpacking. */
module Penta {
  import opened Types
  import opened Arith
  import opened Alphabet

  /** The longest symbol that can be packed, in characters. */
  const MaxSymbolLength: nat := 7
  /** The widest penta, in bits. */
  const MaxBits: nat := 35
  /** One more than the largest penta value: 2^35. */
  const MaxPenta: nat := 0x8_0000_0000

  /** A packed value together with its bit length. */
  datatype Penta = Penta(value: nat, length: nat)

  /** Every character of `s` has a penta code. */
  predicate AllEligible(s: JString)
    decreases |s|
  {
    s == [] || (IsEligible(s[0]) && AllEligible(s[1..]))
  }

  lemma {:induction false} AllEligibleAt(s: JString)
    ensures AllEligible(s) <==> forall i | 0 <= i < |s| :: IsEligible(s[i])
    decreases |s|
  {
    if s != [] {
      AllEligibleAt(s[1..]);
      assert forall i | 1 <= i < |s| :: s[i] == s[1..][i - 1];
    }
  }

  /** The bit length of the packed form: the sum of the characters' widths (`plen`). */
  function PackLength(s: JString): (r: nat)
    requires AllEligible(s)
    ensures r % 5 == 0 && 5 * |s| <= r <= 10 * |s|
    decreases |s|
  {
    if s == [] then 0
    else
      CodeRanges(s[0]);
      WidthOf(s[0]) + PackLength(s[1..])
  }

  /** A character's code fits in its width. */
  lemma CodeFits(c: int)
    requires IsEligible(c)
    ensures PentaOf(c) < Pow2(WidthOf(c))
  {
    CodeRanges(c);
    Pow2Values();
  }

  /** The packed value: the codes of the characters concatenated, the first
      character in the most significant bits. It fits in `PackLength(s)` bits. */
  function PackValue(s: JString): (r: nat)
    requires AllEligible(s)
    ensures r < Pow2(PackLength(s))
    decreases |s|
  {
    if s == [] then 0
    else
      CodeFits(s[0]);
      ShlBelow(PentaOf(s[0]), PackValue(s[1..]), WidthOf(s[0]), PackLength(s[1..]));
      Shl(PentaOf(s[0]), PackLength(s[1..])) + PackValue(s[1..])
  }

  /** The packed form grows the way the source's loop accumulates it: one
      more character shifts the value left by its width and adds its code,
      `penta = (penta << plength[c]) + pentas[c]`. */
  lemma {:induction false} PackSnoc(s: JString, c: JChar)
    requires AllEligible(s) && IsEligible(c)
    ensures AllEligible(s + [c])
    ensures PackLength(s + [c]) == PackLength(s) + WidthOf(c)
    ensures PackValue(s + [c]) == Shl(PackValue(s), WidthOf(c)) + PentaOf(c)
    decreases |s|
  {
    var t := s + [c];
    if s == [] {
      assert t[1..] == [];
      ShlZero(WidthOf(c));
    } else {
      assert t[0] == s[0] && t[1..] == s[1..] + [c];
      PackSnoc(s[1..], c);
      var a, L := PentaOf(s[0]), PackLength(s[1..]);
      ShlAdd(a, L, WidthOf(c));
      ShlSum(Shl(a, L), PackValue(s[1..]), WidthOf(c));
    }
  }

  /** The leading 5-bit group of a packed non-empty symbol is the first
      character's 5-bit code, or the escape group (30 or 31) of its 10-bit
      code; in either case it is not 0, so the packed value reaches its top group. */
  lemma LeadChunk(s: JString)
    requires AllEligible(s) && s != []
    ensures PackLength(s) >= 5
    ensures Shr(PackValue(s), PackLength(s) - 5) == LeadGroup(s[0])
    ensures Pow2(PackLength(s) - 5) <= PackValue(s)
  {
    LeadOfHead(s[0], PackLength(s[1..]), PackValue(s[1..]), PackValue(s));
  }

  /** `LeadChunk` for a first character `a` above `L` packed bits `v`. */
  lemma LeadOfHead(a: int, L: nat, v: nat, x: nat)
    requires IsEligible(a) && v < Pow2(L) && x == Shl(PentaOf(a), L) + v
    ensures WidthOf(a) + L >= 5
    ensures Shr(x, WidthOf(a) + L - 5) == LeadGroup(a)
    ensures Pow2(WidthOf(a) + L - 5) <= x
  {
    CodeRanges(a);
    if IsShort(a) {
      LeadShort(x, PentaOf(a), L, v);
    } else {
      LeadLong(x, PentaOf(a), L, v);
    }
  }

  // ----- Recovering the bit length -----

  /** The bit length of a penta recovered from its magnitude, as `readSymbol`
      does: the least multiple of 5 with `penta >>> plen == 0`. */
  function PentaLength(p: nat): (l: nat)
    requires p < MaxPenta
    ensures l % 5 == 0 && l <= MaxBits
    ensures p < Pow2(l)
    ensures l == 0 || Pow2(l - 5) <= p
  {
    PentaWidth();
    LengthFrom(p, 0)
  }

  /** The loop `while ((penta >>> plen) != 0) plen += 5;` started at `l`. */
  function LengthFrom(p: nat, l: nat): (r: nat)
    requires p < Pow2(MaxBits) && l % 5 == 0 && l <= MaxBits
    requires l == 0 || Pow2(l - 5) <= p
    ensures r % 5 == 0 && l <= r <= MaxBits
    ensures p < Pow2(r)
    ensures r == 0 || Pow2(r - 5) <= p
    decreases MaxBits - l
  {
    ShrZero(p, l);
    FiveApart(l, MaxBits);
    if Shr(p, l) == 0 then l
    else
      assert l + 5 <= MaxBits;
      assert Pow2(l + 5 - 5) <= p;
      LengthFrom(p, l + 5)
  }

  /** The measuring loop of `readSymbol` as written, on a machine word: it
      stops at the first multiple of 5 past the penta's highest set bit. */
  method MeasurePenta(p: nat) returns (plen: nat)
    requires p < MaxPenta
    ensures plen % 5 == 0 && plen <= MaxBits && p < Pow2(plen)
    ensures plen == 0 || Pow2(plen - 5) <= p
    ensures plen == PentaLength(p)
  {
    PentaWidth();
    plen := 0;
    while Shr(p, plen) != 0
      invariant plen % 5 == 0 && plen <= MaxBits
      invariant plen == 0 || Pow2(plen - 5) <= p
      decreases MaxBits - plen
    {
      MeasureStep(p, plen);
      plen := plen + 5;
    }
    ShrZero(p, plen);
    PentaLengthUnique(p, plen);
  }

  /** A penta below `MaxPenta` has at most `MaxBits` bits. */
  lemma PentaWidth()
    ensures Pow2(MaxBits) == MaxPenta
  {
    Pow2Values();
  }

  /** A penta with bits at or above `plen` has room for five more. */
  lemma MeasureStep(p: nat, plen: nat)
    requires plen % 5 == 0 && plen <= MaxBits && p < Pow2(MaxBits)
    requires Shr(p, plen) != 0
    ensures plen + 5 <= MaxBits && Pow2(plen) <= p
  {
    ShrZero(p, plen);
    FiveApart(plen, MaxBits);
  }

  /** A penta whose length is a multiple of 5 and whose leading group is not 0
      has exactly that length recovered from its magnitude. */
  lemma PentaLengthUnique(p: nat, l: nat)
    requires p < MaxPenta && l % 5 == 0 && l <= MaxBits
    requires p < Pow2(l) && (l == 0 || Pow2(l - 5) <= p)
    ensures PentaLength(p) == l
  {
    var m := PentaLength(p);
    FiveApart(m, l);
    FiveApart(l, m);
    if m < l {
      Pow2Monotone(m, l - 5);
    } else if m > l {
      Pow2Monotone(l, m - 5);
    }
  }

  /** A penta measures at most 30 bits exactly when it is below 2^30. */
  lemma ShortPenta(p: nat)
    requires p < MaxPenta
    ensures PentaLength(p) <= 30 <==> p < Pow2(30)
  {
    var l := PentaLength(p);
    FiveApart(30, l);
    if l <= 30 {
      Pow2Monotone(l, 30);
    } else {
      Pow2Monotone(30, l - 5);
    }
  }

  // ----- Unpacking -----

  /** The width of a code: 5 bits for the codes below 32, 10 bits above. */
  function CodeWidth(code: nat): nat {
    if code < 32 then 5 else 10
  }

  /** The characters of a penta of `length` bits, read from the most
      significant end: a 5-bit group 1..29 is one character; a group 30 or 31
      escapes, and together with the next group forms a 10-bit code; a group 0,
      an escape without a following group, or a ragged length is corrupt.
      Every decodable penta is the packed form of what it decodes to. */
  function Unpack(value: nat, length: nat): (r: Option<JString>)
    requires value < Pow2(length)
    ensures r.Some? ==> AllEligible(r.value)
    ensures r.Some? ==> PackLength(r.value) == length && PackValue(r.value) == value
    decreases length, 0
  {
    if length == 0 then Some([])
    else if length < 5 then None
    else
      var rest := length - 5;
      var g := Shr(value, rest);
      if 1 <= g <= 29 then
        UnpackGroup(value, rest, g)
      else if g >= 30 && rest >= 5 then
        var rest2 := rest - 5;
        var code := Shr(value, rest2);
        EscapedCode(value, rest2);
        UnpackGroup(value, rest2, code)
      else
        None
  }

  /** A 5-bit group of 30 or 31 above ten more bits escapes a 10-bit code. */
  lemma EscapedCode(value: nat, rest2: nat)
    requires value < Pow2(rest2 + 10) && Shr(value, rest2 + 5) >= 30
    ensures FirstLongCode <= Shr(value, rest2) < EndLongCode
  {
    var code := Shr(value, rest2);
    ShrBelow(value, rest2, 10);
    ShrShr(value, rest2, 5);
    ShrFive(code);
    Pow2Values();
  }

  /** Emits the character of `code`, the bits of `value` above `rest`, then unpacks the remainder. */
  function UnpackGroup(value: nat, rest: nat, code: nat): (r: Option<JString>)
    requires value < Pow2(rest + CodeWidth(code))
    requires code == Shr(value, rest)
    requires 1 <= code <= 29 || FirstLongCode <= code < EndLongCode
    ensures r.Some? ==> AllEligible(r.value)
    ensures r.Some? ==> PackLength(r.value) == rest + CodeWidth(code)
    ensures r.Some? ==> PackValue(r.value) == value
    decreases rest, 1
  {
    var c := CharOf(code);
    Decompose(value, rest);
    match Unpack(Low(value, rest), rest)
    case None => None
    case Some(tail) =>
      PentaOfCharOf(code);
      CodeRanges(c);
      assert ([c] + tail)[0] == c && ([c] + tail)[1..] == tail;
      Some([c] + tail)
  }

  /** The string a penta stands for (the source's `toString(penta)`), its bit
      length recovered from its magnitude. */
  function ToString(p: nat): Option<JString>
    requires p < MaxPenta
  {
    Unpack(p, PentaLength(p))
  }

  /** Unpacking a packed symbol gives the symbol back. */
  lemma {:induction false} UnpackPack(s: JString)
    requires AllEligible(s)
    ensures Unpack(PackValue(s), PackLength(s)) == Some(s)
    decreases |s|
  {
    if s != [] {
      UnpackPack(s[1..]);
      UnpackStep(s);
    }
  }

  /** One step of `UnpackPack`: the first character is read off the top of
      the packed value, leaving the packed tail. */
  lemma UnpackStep(s: JString)
    requires AllEligible(s) && s != []
    requires Unpack(PackValue(s[1..]), PackLength(s[1..])) == Some(s[1..])
    ensures Unpack(PackValue(s), PackLength(s)) == Some(s)
  {
    HeadSplit(s);
    assert s == [CharOf(PentaOf(s[0]))] + s[1..];
    UnpackCons(PackValue(s), PackLength(s), PackLength(s[1..]), PentaOf(s[0]), PackValue(s[1..]), s[1..], s);
  }

  /** A value with a character code on top of low bits that unpack to `tail`
      unpacks to that character followed by `tail`. */
  lemma UnpackCons(value: nat, length: nat, L: nat, code: nat, low: nat, tail: JString, whole: JString)
    requires 1 <= code <= 29 || FirstLongCode <= code < EndLongCode
    requires length == L + CodeWidth(code) && value < Pow2(length)
    requires code == Shr(value, L) && low == Low(value, L) && low < Pow2(L)
    requires Unpack(low, L) == Some(tail) && whole == [CharOf(code)] + tail
    ensures Unpack(value, length) == Some(whole)
  {
    GroupThenTail(value, L, code, low, tail, whole);
    UnpackTop(value, length, L, code);
  }

  /** Unpacking a value whose top group is a character code `code` above `L`
      bits goes through `UnpackGroup` for that code. */
  lemma UnpackTop(value: nat, length: nat, L: nat, code: nat)
    requires 1 <= code <= 29 || FirstLongCode <= code < EndLongCode
    requires length == CodeWidth(code) + L && value < Pow2(length)
    requires Shr(value, L) == code
    ensures Unpack(value, length) == UnpackGroup(value, L, code)
  {
    if code >= 32 {
      ShrShr(value, L, 5);
      ShrFive(code);
    }
  }

  /** The packed value of a non-empty symbol split at its first character:
      the code on top, the packed tail in the low bits. */
  lemma HeadSplit(s: JString)
    requires AllEligible(s) && s != []
    ensures PackLength(s) == PackLength(s[1..]) + CodeWidth(PentaOf(s[0]))
    ensures PentaOf(s[0]) == Shr(PackValue(s), PackLength(s[1..]))
    ensures Low(PackValue(s), PackLength(s[1..])) == PackValue(s[1..])
    ensures 1 <= PentaOf(s[0]) <= 29 || FirstLongCode <= PentaOf(s[0]) < EndLongCode
    ensures PackValue(s) < Pow2(PackLength(s[1..]) + CodeWidth(PentaOf(s[0])))
    ensures CharOf(PentaOf(s[0])) == s[0]
  {
    var a, L, v, x := s[0], PackLength(s[1..]), PackValue(s[1..]), PackValue(s);
    CodeRanges(a);
    assert PackLength(s) == L + CodeWidth(PentaOf(a));
    assert x < Pow2(PackLength(s));
    Split(x, PentaOf(a), L, v);
    CharOfPentaOf(a);
  }

  /** `UnpackGroup` emits the group's character in front of whatever the low bits unpack to. */
  lemma GroupThenTail(value: nat, rest: nat, code: nat, low: nat, tail: JString, whole: JString)
    requires value < Pow2(rest + CodeWidth(code))
    requires code == Shr(value, rest)
    requires 1 <= code <= 29 || FirstLongCode <= code < EndLongCode
    requires low == Low(value, rest) && low < Pow2(rest) && Unpack(low, rest) == Some(tail)
    requires whole == [CharOf(code)] + tail
    ensures UnpackGroup(value, rest, code) == Some(whole)
  {
  }

  /** The bit length of a packed symbol of at most 35 bits is recovered from its value alone. */
  lemma PackedLengthRecovered(s: JString)
    requires AllEligible(s) && PackLength(s) <= MaxBits
    ensures PackValue(s) < MaxPenta
    ensures PentaLength(PackValue(s)) == PackLength(s)
  {
    Pow2Values();
    Pow2Monotone(PackLength(s), MaxBits);
    if s != [] {
      LeadChunk(s);
    }
    PentaLengthUnique(PackValue(s), PackLength(s));
  }

  /** The packing step of `encode`: fails for symbols longer than 7
      characters, with an ineligible character (one at or above 128, or one
      whose width is the invalid 64), or wider than 35 bits. A packed symbol
      has its exact length recoverable from its value and unpacks to itself. */
  function Pack(s: JString): (r: Option<Penta>)
    ensures r.Some? <==> |s| <= MaxSymbolLength && AllEligible(s) && PackLength(s) <= MaxBits
    ensures r.Some? ==> r.value.value < MaxPenta && r.value.length == PentaLength(r.value.value)
    ensures r.Some? ==> ToString(r.value.value) == Some(s)
  {
    if |s| > MaxSymbolLength || !AllEligible(s) then None
    else if PackLength(s) > MaxBits then None
    else
      PackedLengthRecovered(s);
      UnpackPack(s);
      Some(Penta(PackValue(s), PackLength(s)))
  }
}
