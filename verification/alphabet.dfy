/** The alphabet table of the penta codec: which ASCII characters have a
    penta code, the code, its width in bits, and the inverse mapping.

    The table is given twice: declaratively, as the pure functions `PentaOf`,
    `WidthOf` and `CharOf`, and imperatively, as `InitSymbolCodec`, which fills
    the three arrays in the order the source does; its contract pins every slot
    to the declarative definition. */
module Alphabet {
  import opened Types

  /** Number of ASCII slots (`penta_length`). */
  const TableSize: nat := 128
  /** Number of slots of the code-to-character table (`characters[1024]`). */
  const CodeSpace: nat := 1024
  /** The width recorded for a character without a code. */
  const InvalidWidth: nat := 64
  /** The first 10-bit code, handed to the lowest extended character. */
  const FirstLongCode: nat := 0x3C0
  /** One past the last 10-bit code; the extended scan must end exactly here. */
  const EndLongCode: nat := 0x400

  /** The error codes the codec reports (`pr_internal_error`, `pr_illegal_argument`). */
  datatype CodecError = InternalError | IllegalArgument

  predicate IsLetter(c: int) {
    'A' as int <= c <= 'Z' as int
  }

  /** Characters with a single 5-bit code: the capital letters, '.', '/' and '$'. */
  predicate IsShort(c: int) {
    IsLetter(c) || c == '.' as int || c == '/' as int || c == '$' as int
  }

  /** Characters with a 10-bit code: the printable ASCII characters that have
      no 5-bit code, except the apostrophe and the backtick. */
  predicate IsLong(c: int) {
    32 <= c <= 126 && !IsShort(c) && c != '\'' as int && c != '`' as int
  }

  predicate IsEligible(c: int) {
    IsShort(c) || IsLong(c)
  }

  /** How many 10-bit characters lie in [32, c): the rank of `c` in the ascending scan. */
  function LongsBelow(c: int): nat
    decreases c - 32
  {
    if c <= 32 then 0 else LongsBelow(c - 1) + (if IsLong(c - 1) then 1 else 0)
  }

  /** The penta code of an ASCII character (`pentas[c]`); 0 for ineligible characters. */
  function PentaOf(c: int): nat {
    if IsLetter(c) then c - 'A' as int + 1
    else if c == '.' as int then 27
    else if c == '/' as int then 28
    else if c == '$' as int then 29
    else if IsLong(c) then FirstLongCode + LongsBelow(c)
    else 0
  }

  /** The width in bits of a character's code (`plength[c]`); `InvalidWidth` for ineligible characters. */
  function WidthOf(c: int): nat {
    if IsShort(c) then 5 else if IsLong(c) then 10 else InvalidWidth
  }

  /** The first 5-bit group of a character's code: the code itself for a
      5-bit code, the escape group for a 10-bit code. */
  function LeadGroup(c: int): nat {
    if IsShort(c) then PentaOf(c) else PentaOf(c) / 32
  }

  /** The character with penta code `code` (`characters[code]`); 0 when no character has that code. */
  function CharOf(code: int): JChar {
    FindChar(code, 0)
  }

  /** The first eligible character at or above `c` whose code is `code`, or 0. */
  function FindChar(code: int, c: nat): JChar
    decreases TableSize - c
  {
    if c >= TableSize then 0
    else if IsEligible(c) && PentaOf(c) == code then c
    else FindChar(code, c + 1)
  }

  // ----- Counting the extended characters -----

  /** Over a run of characters that are all extended (or all not), the rank grows by the run's length (or not at all). */
  lemma {:induction false} LongsOverRun(a: int, b: int, long: bool)
    requires 32 <= a <= b
    requires forall c | a <= c < b :: IsLong(c) == long
    ensures LongsBelow(b) == LongsBelow(a) + (if long then b - a else 0)
    decreases b - a
  {
    if a < b {
      LongsOverRun(a, b - 1, long);
    }
  }

  /** Exactly 64 characters receive a 10-bit code, so the scan ends at `EndLongCode`. */
  lemma LongTotal()
    ensures LongsBelow(127) == EndLongCode - FirstLongCode
  {
    LongsBelowDigits();
    LongsOverRun(65, 91, false);   // 'A' .. 'Z'
    LongsOverRun(91, 96, true);    // '[' .. '_'
    LongsOverRun(96, 97, false);   // backtick
    LongsOverRun(97, 127, true);   // 'a' .. '~'
  }

  /** 29 of the characters from the space to '@' receive a 10-bit code. */
  lemma LongsBelowDigits()
    ensures LongsBelow(65) == 29
  {
    LongsOverRun(32, 36, true);    // ' ' .. '#'
    LongsOverRun(36, 37, false);   // '$'
    LongsOverRun(37, 39, true);    // '%' '&'
    LongsOverRun(39, 40, false);   // apostrophe
    LongsOverRun(40, 46, true);    // '(' .. '-'
    LongsOverRun(46, 48, false);   // '.' '/'
    LongsOverRun(48, 65, true);    // '0' .. '@'
  }

  lemma {:induction false} LongsBelowMonotone(a: int, b: int)
    requires a <= b
    ensures LongsBelow(a) <= LongsBelow(b)
    decreases b - a
  {
    if a < b {
      LongsBelowMonotone(a, b - 1);
    }
  }

  /** Every extended character ranks strictly below every later character. */
  lemma LongsBelowStrict(a: int, b: int)
    requires IsLong(a) && a < b
    ensures LongsBelow(a) < LongsBelow(b)
  {
    assert LongsBelow(a + 1) == LongsBelow(a) + 1;
    LongsBelowMonotone(a + 1, b);
  }

  /** An extended character of every rank below `LongsBelow(hi)` exists below `hi`. */
  lemma {:induction false} LongWithRank(m: nat, hi: int) returns (c: int)
    requires m < LongsBelow(hi)
    ensures 32 <= c < hi && IsLong(c) && LongsBelow(c) == m
    decreases hi - 32
  {
    if m < LongsBelow(hi - 1) {
      c := LongWithRank(m, hi - 1);
    } else {
      c := hi - 1;
    }
  }

  // ----- The properties of the code assignment -----

  /** The code ranges that make the escape scheme prefix-free: 5-bit codes are
      1..29 (never 0, 30 or 31), 10-bit codes are 960..1023 so their top five
      bits are 30 or 31, and ineligible characters keep code 0 and width 64. */
  lemma CodeRanges(c: int)
    ensures IsShort(c) ==> 1 <= PentaOf(c) <= 29 && WidthOf(c) == 5
    ensures IsLong(c) ==> FirstLongCode <= PentaOf(c) < EndLongCode && WidthOf(c) == 10
    ensures IsLong(c) ==> PentaOf(c) / 32 == 30 || PentaOf(c) / 32 == 31
    ensures !IsEligible(c) ==> PentaOf(c) == 0 && WidthOf(c) == InvalidWidth
  {
    if IsLong(c) {
      LongsBelowStrict(c, 127);
      LongTotal();
    }
  }

  /** Distinct eligible characters have distinct codes. */
  lemma CodesDistinct(c: int, d: int)
    requires IsEligible(c) && IsEligible(d) && c != d
    ensures PentaOf(c) != PentaOf(d)
  {
    CodeRanges(c);
    CodeRanges(d);
    if IsLong(c) && IsLong(d) {
      if c < d {
        LongsBelowStrict(c, d);
      } else {
        LongsBelowStrict(d, c);
      }
    }
  }

  lemma {:induction false} FindCharFinds(code: int, from: nat, target: int)
    requires IsEligible(target) && PentaOf(target) == code && from <= target
    ensures FindChar(code, from) == target
    decreases target - from
  {
    if from < target {
      if IsEligible(from) {
        CodesDistinct(from, target);
      }
      FindCharFinds(code, from + 1, target);
    }
  }

  lemma {:induction false} FindCharMisses(code: int, from: nat)
    requires code == 0 || 30 <= code < FirstLongCode || code < 0 || EndLongCode <= code
    ensures FindChar(code, from) == 0
    decreases TableSize - from
  {
    if from < TableSize {
      CodeRanges(from);
      FindCharMisses(code, from + 1);
    }
  }

  /** `characters[pentas[c]] == c` for every eligible character. */
  lemma CharOfPentaOf(c: int)
    requires IsEligible(c)
    ensures CharOf(PentaOf(c)) == c
  {
    FindCharFinds(PentaOf(c), 0, c);
  }

  /** Every 5-bit code 1..29 and every 10-bit code 960..1023 belongs to exactly
      the eligible character `characters[code]`; every other slot holds 0. */
  lemma PentaOfCharOf(k: int)
    ensures 1 <= k <= 29 ==> IsShort(CharOf(k)) && PentaOf(CharOf(k)) == k
    ensures FirstLongCode <= k < EndLongCode ==> IsLong(CharOf(k)) && PentaOf(CharOf(k)) == k
    ensures !(1 <= k <= 29 || FirstLongCode <= k < EndLongCode) ==> CharOf(k) == 0
  {
    if 1 <= k <= 26 {
      CharOfPentaOf('A' as int + k - 1);
    } else if k == 27 {
      CharOfPentaOf('.' as int);
    } else if k == 28 {
      CharOfPentaOf('/' as int);
    } else if k == 29 {
      CharOfPentaOf('$' as int);
    } else if FirstLongCode <= k < EndLongCode {
      LongTotal();
      var c := LongWithRank(k - FirstLongCode, 127);
      CharOfPentaOf(c);
    } else {
      FindCharMisses(k, 0);
    }
  }

  // ----- The imperative construction -----

  /** The three global arrays: `pentas`, `plength` and `characters`. */
  datatype Table = Table(pentas: seq<int>, plength: seq<int>, characters: seq<int>) {
    predicate WellSized() {
      |pentas| == TableSize && |plength| == TableSize && |characters| == CodeSpace
    }
  }

  /** Records code `penta` of width `plen` for character `c`, and `c` as the character of `penta`. */
  function InitPenta(t: Table, c: int, penta: int, plen: int): (r: Table)
    requires t.WellSized() && 0 <= c < TableSize && 0 <= penta < CodeSpace
    ensures r.WellSized()
    ensures r.pentas[c] == penta && r.plength[c] == plen && r.characters[penta] == c
    ensures forall d | 0 <= d < TableSize && d != c :: r.pentas[d] == t.pentas[d] && r.plength[d] == t.plength[d]
    ensures forall k | 0 <= k < CodeSpace && k != penta :: r.characters[k] == t.characters[k]
  {
    Table(t.pentas[c := penta], t.plength[c := plen], t.characters[penta := c])
  }

  /** The table before any code is assigned: no codes, invalid widths, no characters. */
  function EmptyTable(): (t: Table)
    ensures t.WellSized()
    ensures forall c | 0 <= c < TableSize :: t.pentas[c] == 0 && t.plength[c] == InvalidWidth
    ensures forall k | 0 <= k < CodeSpace :: t.characters[k] == 0
  {
    Table(seq(TableSize, _ => 0), seq(TableSize, _ => InvalidWidth), seq(CodeSpace, _ => 0))
  }

  /** The table with exactly the 5-bit codes assigned. */
  predicate HasShortCodes(t: Table) {
    && t.WellSized()
    && (forall c | 0 <= c < TableSize :: t.pentas[c] == (if IsShort(c) then PentaOf(c) else 0))
    && (forall c | 0 <= c < TableSize :: t.plength[c] == (if IsShort(c) then WidthOf(c) else InvalidWidth))
    && (forall k | 0 <= k < CodeSpace :: t.characters[k] == (if 1 <= k <= 29 then CharOf(k) else 0))
  }

  /** The first phase: 'A'..'Z' get 1..26, then '.', '/' and '$' get 27, 28 and 29, all of width 5. */
  method InitShortCodes() returns (t: Table)
    ensures HasShortCodes(t)
  {
    t := EmptyTable();
    var i := 'A' as int;
    while i <= 'Z' as int
      invariant 'A' as int <= i <= 'Z' as int + 1
      invariant t.WellSized()
      invariant forall c | 0 <= c < TableSize :: t.pentas[c] == (if 'A' as int <= c < i then PentaOf(c) else 0)
      invariant forall c | 0 <= c < TableSize ::
        t.plength[c] == (if 'A' as int <= c < i then WidthOf(c) else InvalidWidth)
      invariant forall k | 0 <= k < CodeSpace ::
        t.characters[k] == (if 1 <= k < i - 'A' as int + 1 then CharOf(k) else 0)
    {
      CharOfPentaOf(i);
      t := InitPenta(t, i, i - 'A' as int + 1, 5);
      i := i + 1;
    }
    CharOfPentaOf('.' as int);
    CharOfPentaOf('/' as int);
    CharOfPentaOf('$' as int);
    t := InitPenta(t, '.' as int, 27, 5);
    t := InitPenta(t, '/' as int, 28, 5);
    t := InitPenta(t, '$' as int, 29, 5);
  }

  /** The state of the 10-bit scan before character `i`: the characters below
      `i` and the 5-bit ones have their final codes, and `penta` is the next
      10-bit code to hand out. */
  predicate ScannedBelow(t: Table, i: int, penta: int) {
    && 32 <= i <= 127
    && t.WellSized()
    && penta == FirstLongCode + LongsBelow(i)
    && (forall c | 0 <= c < TableSize :: t.pentas[c] == (if IsShort(c) || c < i then PentaOf(c) else 0))
    && (forall c | 0 <= c < TableSize ::
          t.plength[c] == (if IsShort(c) || c < i then WidthOf(c) else InvalidWidth))
    && (forall k | 0 <= k < CodeSpace ::
          t.characters[k] == (if 1 <= k <= 29 || FirstLongCode <= k < penta then CharOf(k) else 0))
  }

  /** The second phase: one ascending scan over 32..126 that hands the next
      10-bit code to every character still without a code, except the
      apostrophe and the backtick. Returns the table and the final counter. */
  method InitLongCodes(t0: Table) returns (t: Table, penta: int)
    requires HasShortCodes(t0)
    ensures penta == FirstLongCode + LongsBelow(127)
    ensures t.WellSized()
    ensures forall c | 0 <= c < TableSize :: t.pentas[c] == PentaOf(c) && t.plength[c] == WidthOf(c)
    ensures forall k | 0 <= k < CodeSpace :: t.characters[k] == CharOf(k)
  {
    t := t0;
    ScanStart(t0);
    penta := FirstLongCode;
    var i := 32;
    while i <= 126
      invariant ScannedBelow(t, i, penta)
    {
      t, penta := ScanCharacter(t, i, penta);
      i := i + 1;
    }
    ScanComplete(t, penta);
  }

  /** The scan's visit of character `i`: a character still without a code,
      other than the apostrophe and the backtick, receives the next 10-bit code. */
  method ScanCharacter(t: Table, i: int, penta: int) returns (t': Table, penta': int)
    requires ScannedBelow(t, i, penta) && i <= 126
    ensures ScannedBelow(t', i + 1, penta')
  {
    t', penta' := t, penta;
    ScanRoom(t, i, penta);
    if t.pentas[i] == 0 && i != '\'' as int && i != '`' as int {
      t' := InitPenta(t, i, penta, 10);
      penta' := penta + 1;
    }
    ScanStep(t, i, penta, t', penta');
  }

  /** Before the scan nothing but the 5-bit codes is assigned. */
  lemma ScanStart(t: Table)
    requires HasShortCodes(t)
    ensures ScannedBelow(t, 32, FirstLongCode)
  {
  }

  /** One step of the scan: a character still without a code, other than the
      apostrophe and the backtick, receives the next 10-bit code. */
  lemma ScanStep(t: Table, i: int, penta: int, t': Table, penta': int)
    requires ScannedBelow(t, i, penta) && i <= 126 && penta < CodeSpace
    requires t.pentas[i] == 0 && i != '\'' as int && i != '`' as int ==>
               t' == InitPenta(t, i, penta, 10) && penta' == penta + 1
    requires !(t.pentas[i] == 0 && i != '\'' as int && i != '`' as int) ==> t' == t && penta' == penta
    ensures ScannedBelow(t', i + 1, penta')
  {
    if t.pentas[i] == 0 && i != '\'' as int && i != '`' as int {
      LongsBelowStrict(i, 127);
      LongTotal();
      CharOfPentaOf(i);
    }
  }

  /** Before the last character there is still a free 10-bit code. */
  lemma ScanRoom(t: Table, i: int, penta: int)
    requires ScannedBelow(t, i, penta) && i <= 126
    ensures penta < CodeSpace
  {
    LongsBelowStrict(126, 127);
    LongsBelowMonotone(i, 126);
    LongTotal();
  }

  /** After the scan every slot holds its final value. */
  lemma ScanComplete(t: Table, penta: int)
    requires ScannedBelow(t, 127, penta)
    ensures penta == FirstLongCode + LongsBelow(127)
    ensures forall c | 0 <= c < TableSize :: t.pentas[c] == PentaOf(c) && t.plength[c] == WidthOf(c)
    ensures forall k | 0 <= k < CodeSpace :: t.characters[k] == CharOf(k)
  {
    LongTotal();
    forall k | 0 <= k < CodeSpace
      ensures t.characters[k] == CharOf(k)
    {
      PentaOfCharOf(k);
    }
  }

  /** Builds the table as the source does and fails with an internal error
      unless the 10-bit scan ends exactly at `EndLongCode`. It never fails, and
      every slot ends up as the declarative table says. */
  method InitSymbolCodec() returns (r: Result<Table, CodecError>)
    ensures r.Success?
    ensures r.Success? ==> r.value.WellSized()
    ensures r.Success? ==> forall c | 0 <= c < TableSize ::
      r.value.pentas[c] == PentaOf(c) && r.value.plength[c] == WidthOf(c)
    ensures r.Success? ==> forall k | 0 <= k < CodeSpace :: r.value.characters[k] == CharOf(k)
    ensures r.Success? ==> forall c | 0 <= c < TableSize && IsEligible(c) ::
      0 <= r.value.pentas[c] < CodeSpace && r.value.characters[r.value.pentas[c]] == c
  {
    var t0 := InitShortCodes();
    var t, penta := InitLongCodes(t0);
    LongTotal();
    forall c | 0 <= c < TableSize && IsEligible(c)
      ensures 0 <= t.pentas[c] < CodeSpace && t.characters[t.pentas[c]] == c
    {
      CodeRanges(c);
      CharOfPentaOf(c);
    }
    r := if penta == EndLongCode then Success(t) else Failure(InternalError);
  }
}
