/** Shifts and masks on unbounded naturals.

    The source packs characters with `<<`, unpacks and measures with `>>>`
    and truncates with `&` masks. They are defined here by recursion on the
    shift distance, so that every unfolding is linear arithmetic, and the
    facts the codec needs are proved once, by induction. */
module Arith {

  /** `x << n`. */
  function Shl(x: nat, n: nat): nat {
    if n == 0 then x else 2 * Shl(x, n - 1)
  }

  /** `x >>> n`. */
  function Shr(x: nat, n: nat): nat {
    if n == 0 then x else Shr(x / 2, n - 1)
  }

  /** `x & ((1 << n) - 1)`: the low `n` bits of `x`. */
  function Low(x: nat, n: nat): nat {
    if n == 0 then 0 else 2 * Low(x / 2, n - 1) + x % 2
  }

  /** `1 << n`. */
  function Pow2(n: nat): nat {
    Shl(1, n)
  }

  lemma {:induction false} ShlPositive(x: nat, n: nat)
    requires x >= 1
    ensures Shl(x, n) >= x
    decreases n
  {
    if n > 0 {
      ShlPositive(x, n - 1);
    }
  }

  lemma {:induction false} ShlZero(n: nat)
    ensures Shl(0, n) == 0
    decreases n
  {
    if n > 0 {
      ShlZero(n - 1);
    }
  }

  /** Shifting by `a` then by `b` is shifting by `a + b`. */
  lemma {:induction false} ShlAdd(x: nat, a: nat, b: nat)
    ensures Shl(Shl(x, a), b) == Shl(x, a + b)
    decreases b
  {
    if b > 0 {
      ShlAdd(x, a, b - 1);
    }
  }

  /** A left shift distributes over addition. */
  lemma {:induction false} ShlSum(x: nat, y: nat, n: nat)
    ensures Shl(x + y, n) == Shl(x, n) + Shl(y, n)
    decreases n
  {
    if n > 0 {
      ShlSum(x, y, n - 1);
    }
  }

  lemma {:induction false} ShlMonotone(x: nat, y: nat, n: nat)
    requires x <= y
    ensures Shl(x, n) <= Shl(y, n)
    decreases n
  {
    if n > 0 {
      ShlMonotone(x, y, n - 1);
    }
  }

  lemma Pow2Positive(n: nat)
    ensures Pow2(n) >= 1
  {
    ShlPositive(1, n);
  }

  lemma Pow2Monotone(a: nat, b: nat)
    requires a <= b
    ensures Pow2(a) <= Pow2(b)
  {
    ShlAdd(1, a, b - a);
    Pow2Positive(a);
    ShlPositive(Pow2(a), b - a);
  }

  /** `1 << (a + b) == (1 << a) << b`. */
  lemma Pow2Add(a: nat, b: nat)
    ensures Shl(Pow2(a), b) == Pow2(a + b)
  {
    ShlAdd(1, a, b);
  }

  lemma Pow2Values()
    ensures Pow2(5) == 0x20 && Pow2(8) == 0x100 && Pow2(10) == 0x400
    ensures Pow2(15) == 0x8000 && Pow2(16) == 0x1_0000 && Pow2(20) == 0x10_0000
    ensures Pow2(24) == 0x100_0000 && Pow2(25) == 0x200_0000 && Pow2(30) == 0x4000_0000
    ensures Pow2(32) == 0x1_0000_0000 && Pow2(35) == 0x8_0000_0000
  {
  }

  /** Recombining: `code << n` above `v < 2^n` shifts back to `code` and masks back to `v`. */
  lemma {:induction false} SplitJoin(code: nat, v: nat, n: nat)
    requires v < Pow2(n)
    ensures Shr(Shl(code, n) + v, n) == code
    ensures Low(Shl(code, n) + v, n) == v
    decreases n
  {
    if n > 0 {
      var x := Shl(code, n) + v;
      assert x / 2 == Shl(code, n - 1) + v / 2;
      SplitJoin(code, v / 2, n - 1);
    }
  }

  /** `SplitJoin` for a value `x` already known to be `code << n` above `v`. */
  lemma Split(x: nat, code: nat, n: nat, v: nat)
    requires v < Pow2(n) && x == Shl(code, n) + v
    ensures Shr(x, n) == code && Low(x, n) == v
  {
    SplitJoin(code, v, n);
  }

  /** Every value is its high part shifted back above its low part. */
  lemma {:induction false} Decompose(x: nat, n: nat)
    ensures x == Shl(Shr(x, n), n) + Low(x, n)
    ensures Low(x, n) < Pow2(n)
    decreases n
  {
    if n > 0 {
      Decompose(x / 2, n - 1);
    }
  }

  /** The low `n` bits of a value below `2^n` are the value. */
  lemma LowOfSmall(x: nat, n: nat)
    requires x < Pow2(n)
    ensures Low(x, n) == x && Shr(x, n) == 0
  {
    ShlZero(n);
    SplitJoin(0, x, n);
  }

  /** `x >>> n` is 0 exactly when `x` is below `2^n`. */
  lemma ShrZero(x: nat, n: nat)
    ensures Shr(x, n) == 0 <==> x < Pow2(n)
  {
    Decompose(x, n);
    ShlZero(n);
    if Shr(x, n) != 0 {
      ShlMonotone(1, Shr(x, n), n);
    } else {
      LowOfSmall(x, n);
    }
  }

  lemma {:induction false} ShrShr(x: nat, a: nat, b: nat)
    ensures Shr(Shr(x, a), b) == Shr(x, a + b)
    decreases a
  {
    if a > 0 {
      ShrShr(x / 2, a - 1, b);
    }
  }

  /** A value of `a + b` bits has at most `b` bits left after shifting out `a`. */
  lemma ShrBelow(x: nat, a: nat, b: nat)
    requires x < Pow2(a + b)
    ensures Shr(x, a) < Pow2(b)
  {
    ShrZero(x, a + b);
    ShrShr(x, a, b);
    ShrZero(Shr(x, a), b);
  }

  /** `code << L` above a value below `2^L` fits in `W + L` bits when `code` fits in `W`. */
  lemma ShlBelow(code: nat, v: nat, W: nat, L: nat)
    requires code < Pow2(W) && v < Pow2(L)
    ensures Shl(code, L) + v < Pow2(W + L)
  {
    ShlSum(code, 1, L);
    ShlMonotone(code + 1, Pow2(W), L);
    Pow2Add(W, L);
  }

  /** `code << L` is at least `2^(k + L)` when `code` is at least `2^k`. */
  lemma ShlAtLeast(code: nat, k: nat, L: nat)
    requires Pow2(k) <= code
    ensures Pow2(k + L) <= Shl(code, L)
  {
    ShlMonotone(Pow2(k), code, L);
    Pow2Add(k, L);
  }

  /** A shift right by five is a division by 32. */
  lemma ShrFive(x: nat)
    ensures Shr(x, 5) == x / 32
  {
    var a := x / 2;
    var b := a / 2;
    var c := b / 2;
    var d := c / 2;
    assert Shr(x, 5) == Shr(a, 4);
    assert Shr(a, 4) == Shr(b, 3);
    assert Shr(b, 3) == Shr(c, 2);
    assert Shr(c, 2) == Shr(d, 1);
    assert Shr(d, 1) == d / 2;
    assert d / 2 == x / 32;
  }

  /** The top group of `code << L` above `L` low bits, for a nonzero code. */
  lemma LeadShort(x: nat, code: nat, L: nat, v: nat)
    requires v < Pow2(L) && x == Shl(code, L) + v && 1 <= code
    ensures Shr(x, L) == code && Pow2(L) <= x
  {
    Split(x, code, L, v);
    ShlAtLeast(code, 0, L);
  }

  /** The top five bits of a code of at least 32 placed above `L` low bits. */
  lemma LeadLong(x: nat, code: nat, L: nat, v: nat)
    requires v < Pow2(L) && x == Shl(code, L) + v && 32 <= code
    ensures Shr(x, L + 5) == code / 32 && Pow2(L + 5) <= x
  {
    Split(x, code, L, v);
    ShrShr(x, L, 5);
    ShrFive(code);
    assert Pow2(5) == 32;
    ShlAtLeast(code, 5, L);
  }

  /** A left shift is a multiplication by a power of two. */
  lemma {:induction false} ShlMul(x: nat, n: nat)
    ensures Shl(x, n) == x * Pow2(n)
    decreases n
  {
    if n > 0 {
      ShlMul(x, n - 1);
      ShlMul(1, n - 1);
      assert Shl(x, n) == 2 * (x * Pow2(n - 1));
    }
  }

  /** Two different multiples of 5 are at least 5 apart. */
  lemma FiveApart(m: int, l: int)
    requires m % 5 == 0 && l % 5 == 0
    ensures m < l ==> m <= l - 5
  {
  }
}
