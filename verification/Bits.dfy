/** Bitwise arithmetic on natural numbers, for machine words whose width is a parameter. */
module Bits {

  function Pow2(n: nat): (r: nat)
    ensures r > 0
  {
    if n == 0 then 1 else 2 * Pow2(n - 1)
  }

  lemma {:induction false} Pow2Monotone(m: nat, n: nat)
    requires m <= n
    ensures Pow2(m) <= Pow2(n)
    ensures m < n ==> Pow2(m) < Pow2(n)
  {
    if m < n { Pow2Monotone(m, n - 1); }
  }

  /** Bit `k` of `x`. */
  predicate Bit(x: nat, k: nat) {
    if k == 0 then x % 2 == 1 else Bit(x / 2, k - 1)
  }

  function BitOf(b: bool): nat { if b then 1 else 0 }

  /** `x & y` */
  function And(x: nat, y: nat): nat {
    if x == 0 || y == 0 then 0
    else 2 * And(x / 2, y / 2) + BitOf(x % 2 == 1 && y % 2 == 1)
  }

  /** `x | y` */
  function Or(x: nat, y: nat): nat
    decreases x + y
  {
    if x == 0 then y else if y == 0 then x
    else 2 * Or(x / 2, y / 2) + BitOf(x % 2 == 1 || y % 2 == 1)
  }

  /** `!x` on a word of `w` bits. */
  function Not(w: nat, x: nat): nat
    requires x < Pow2(w)
  {
    Pow2(w) - 1 - x
  }

  lemma {:induction false} ZeroBit(k: nat)
    ensures !Bit(0, k)
  {
    if k > 0 { ZeroBit(k - 1); }
  }

  lemma {:induction false} AndBit(x: nat, y: nat, k: nat)
    ensures Bit(And(x, y), k) == (Bit(x, k) && Bit(y, k))
  {
    if x == 0 || y == 0 {
      ZeroBit(k);
    } else if k > 0 {
      AndBit(x / 2, y / 2, k - 1);
    }
  }

  lemma {:induction false} OrBit(x: nat, y: nat, k: nat)
    ensures Bit(Or(x, y), k) == (Bit(x, k) || Bit(y, k))
    decreases k
  {
    if x == 0 || y == 0 {
      ZeroBit(k);
    } else if k > 0 {
      OrBit(x / 2, y / 2, k - 1);
    }
  }

  lemma {:induction false} NotBit(w: nat, x: nat, k: nat)
    requires x < Pow2(w)
    ensures Bit(Not(w, x), k) == (k < w && !Bit(x, k))
  {
    if w == 0 {
      ZeroBit(k);
    } else if k > 0 {
      assert Not(w, x) / 2 == Not(w - 1, x / 2);
      NotBit(w - 1, x / 2, k - 1);
    }
  }

  /** `1 << n` has bit `n` set and no other. */
  lemma {:induction false} Pow2Bit(n: nat, k: nat)
    ensures Bit(Pow2(n), k) == (k == n)
  {
    if n > 0 && k > 0 {
      Pow2Bit(n - 1, k - 1);
    } else if n == 0 && k > 0 {
      ZeroBit(k - 1);
    }
  }

  /** `(1 << n) - 1` has exactly the bits below `n` set. */
  lemma {:induction false} OnesBit(n: nat, k: nat)
    ensures Bit(Pow2(n) - 1, k) == (k < n)
  {
    if n == 0 {
      ZeroBit(k);
    } else if k > 0 {
      assert (Pow2(n) - 1) / 2 == Pow2(n - 1) - 1;
      OnesBit(n - 1, k - 1);
    }
  }

  /** `x >> j` */
  function Shr(x: nat, j: nat): nat {
    if j == 0 then x else Shr(x / 2, j - 1)
  }

  lemma {:induction false} ShrBit(x: nat, j: nat, k: nat)
    ensures Bit(Shr(x, j), k) == Bit(x, j + k)
  {
    if j > 0 { ShrBit(x / 2, j - 1, k); }
  }

  /** The low `w` bits of `x`: what a word of that width keeps. */
  function Trunc(w: nat, x: nat): nat
    decreases w
  {
    if w == 0 then 0 else 2 * Trunc(w - 1, x / 2) + x % 2
  }

  /** `x << j` on a word of `w` bits; bits shifted out at the top are lost. */
  function Shl(w: nat, x: nat, j: nat): nat {
    Trunc(w, x * Pow2(j))
  }

  lemma {:induction false} TruncBit(w: nat, x: nat, k: nat)
    ensures Bit(Trunc(w, x), k) == (k < w && Bit(x, k))
    decreases w
  {
    if w == 0 {
      ZeroBit(k);
    } else if k > 0 {
      assert Trunc(w, x) / 2 == Trunc(w - 1, x / 2);
      TruncBit(w - 1, x / 2, k - 1);
    }
  }

  lemma {:induction false} TimesPow2Bit(x: nat, j: nat, k: nat)
    ensures Bit(x * Pow2(j), k) == (k >= j && Bit(x, k - j))
  {
    if j > 0 {
      var y := x * Pow2(j - 1);
      assert x * Pow2(j) == 2 * y;
      if k > 0 { TimesPow2Bit(x, j - 1, k - 1); }
    }
  }

  lemma ShlBit(w: nat, x: nat, j: nat, k: nat)
    ensures Bit(Shl(w, x, j), k) == (j <= k < w && Bit(x, k - j))
  {
    TruncBit(w, x * Pow2(j), k);
    TimesPow2Bit(x, j, k);
  }

  ghost predicate NoBitFrom(x: nat, n: nat) {
    forall k: nat | n <= k :: !Bit(x, k)
  }

  /** `x` fits in `n` bits iff no bit from `n` up is set. */
  lemma {:induction false} FitsIffNoHighBit(x: nat, n: nat)
    ensures x < Pow2(n) <==> NoBitFrom(x, n)
  {
    if n == 0 {
      if x == 0 {
        forall k: nat ensures !Bit(x, k) { ZeroBit(k); }
      } else {
        var k := SomeBit(x);
      }
    } else {
      FitsIffNoHighBit(x / 2, n - 1);
      if NoBitFrom(x, n) {
        forall k: nat | n - 1 <= k ensures !Bit(x / 2, k) { assert !Bit(x, k + 1); }
      }
      if NoBitFrom(x / 2, n - 1) {
        forall k: nat | n <= k ensures !Bit(x, k) { assert !Bit(x / 2, k - 1); }
      }
    }
  }

  lemma {:induction false} SomeBit(x: nat) returns (k: nat)
    requires x > 0
    ensures Bit(x, k)
  {
    if x % 2 == 1 { k := 0; } else {
      var j := SomeBit(x / 2);
      k := j + 1;
    }
  }

  /** `x.trailing_zeros()` on a word of `w` bits. */
  function TrailingZeros(w: nat, x: nat): nat {
    if w == 0 || x % 2 == 1 then 0 else 1 + TrailingZeros(w - 1, x / 2)
  }

  /** The number of one bits below the lowest zero bit. */
  function TrailingOnes(x: nat): nat {
    if x % 2 == 0 then 0 else 1 + TrailingOnes(x / 2)
  }

  lemma {:induction false} TrailingOnesBits(x: nat)
    ensures forall k: nat | k < TrailingOnes(x) :: Bit(x, k)
    ensures !Bit(x, TrailingOnes(x))
  {
    if x % 2 == 1 { TrailingOnesBits(x / 2); }
  }

  lemma TrailingOnesUnique(x: nat, n: nat)
    requires !Bit(x, n) && forall k: nat | k < n :: Bit(x, k)
    ensures TrailingOnes(x) == n
  {
    TrailingOnesBits(x);
  }

  /** Inverting a word turns its trailing ones into trailing zeros. */
  lemma {:induction false} InvertedTrailing(w: nat, x: nat)
    requires x < Pow2(w)
    ensures TrailingZeros(w, Not(w, x)) == if TrailingOnes(x) < w then TrailingOnes(x) else w
  {
    if w > 0 && x % 2 == 1 {
      assert Not(w, x) / 2 == Not(w - 1, x / 2);
      InvertedTrailing(w - 1, x / 2);
    }
  }

  /** `x.ilog2()` */
  function Ilog2(x: nat): nat
    requires x > 0
  {
    if x == 1 then 0 else 1 + Ilog2(x / 2)
  }

  /** The power-of-two test `x & (x - 1) == 0`. */
  lemma {:induction false} PowerOfTwoTest(x: nat)
    requires x > 0
    ensures And(x, x - 1) == 0 <==> x == Pow2(Ilog2(x))
  {
    if x > 1 {
      PowerOfTwoTest(x / 2);
      if x % 2 == 1 {
        assert (x - 1) / 2 == x / 2;
        AndSelf(x / 2);
      } else {
        assert (x - 1) / 2 == x / 2 - 1;
      }
    }
  }

  lemma {:induction false} AndSelf(x: nat)
    ensures And(x, x) == x
  {
    if x > 0 { AndSelf(x / 2); }
  }

  /** Words with the same bits are the same word. */
  lemma {:induction false} SameBits(x: nat, y: nat)
    requires forall k: nat :: Bit(x, k) == Bit(y, k)
    ensures x == y
    decreases x + y
  {
    assert Bit(x, 0) == Bit(y, 0);
    if x + y > 0 {
      forall k: nat ensures Bit(x / 2, k) == Bit(y / 2, k) {
        assert Bit(x, k + 1) == Bit(y, k + 1);
      }
      SameBits(x / 2, y / 2);
    }
  }
}
