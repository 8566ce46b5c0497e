/** Numbers as sets of bits, and how the word operations act on them. */
module Bits {
  import opened BigInt

  predicate Bit(v: nat, j: nat) {
    if j == 0 then v % 2 == 1 else Bit(v / 2, j - 1)
  }

  /** Bitwise or. */
  function Or(a: nat, b: nat): nat {
    if a == 0 then b else 2 * Or(a / 2, b / 2) + if a % 2 == 1 || b % 2 == 1 then 1 else 0
  }

  /** `a & ~b`. */
  function AndNot(a: nat, b: nat): nat {
    if a == 0 then 0 else 2 * AndNot(a / 2, b / 2) + if a % 2 == 1 && b % 2 == 0 then 1 else 0
  }

  /** The bits from `c` on: `v` divided by a power of two, rounded down; and those below `n`. */
  function Shr(v: nat, c: nat): nat {
    Quotient(v, Pow2(c))
  }

  function Low(v: nat, n: nat): nat {
    Remainder(v, Pow2(n))
  }

  /** `v` times a power of two. */
  function Shl(v: nat, c: nat): nat {
    v * Pow2(c)
  }

  function Quotient(v: nat, p: nat): nat
    requires p > 0
  {
    v / p
  }

  function Remainder(v: nat, p: nat): (r: nat)
    requires p > 0
    ensures r < p && v == Quotient(v, p) * p + r
  {
    v % p
  }

  lemma {:induction false} BitOfZero(j: nat)
    ensures !Bit(0, j)
  {
    if j > 0 { BitOfZero(j - 1); }
  }

  lemma {:induction false} BitOfOr(a: nat, b: nat, j: nat)
    ensures Bit(Or(a, b), j) == (Bit(a, j) || Bit(b, j))
    decreases j
  {
    BitOfZero(j);
    if a > 0 {
      if j > 0 { BitOfOr(a / 2, b / 2, j - 1); }
    }
  }

  lemma {:induction false} BitOfAnd(a: nat, b: nat, j: nat)
    ensures And(a, b) >= 0 && Bit(And(a, b), j) == (Bit(a, j) && Bit(b, j))
    decreases j
  {
    AndBounds(a, b);
    BitOfZero(j);
    if a > 0 {
      AndBounds(a / 2, b / 2);
      if j > 0 { BitOfAnd(a / 2, b / 2, j - 1); }
    }
  }

  lemma {:induction false} BitOfAndNot(a: nat, b: nat, j: nat)
    ensures Bit(AndNot(a, b), j) == (Bit(a, j) && !Bit(b, j))
    decreases j
  {
    BitOfZero(j);
    if a > 0 {
      if j > 0 { BitOfAndNot(a / 2, b / 2, j - 1); }
    }
  }

  lemma {:induction false} BitOfShr(v: nat, c: nat, j: nat)
    ensures Bit(Shr(v, c), j) == Bit(v, c + j)
    decreases c
  {
    if c > 0 {
      DivTwice(v, Pow2(c - 1));
      BitOfShr(v / 2, c - 1, j);
    }
  }

  /** A number with `low` below its bits from `c` on. */
  lemma {:induction false} BitOfJoined(v: nat, c: nat, low: nat, j: nat)
    requires low < Pow2(c)
    ensures Bit(v * Pow2(c) + low, j) == if j < c then Bit(low, j) else Bit(v, j - c)
    decreases c
  {
    if c > 0 {
      var p := Pow2(c - 1);
      assert v * Pow2(c) == 2 * (v * p);
      assert v * Pow2(c) + low == 2 * (v * p + low / 2) + low % 2;
      if j > 0 { BitOfJoined(v, c - 1, low / 2, j - 1); }
    } else {
      assert v * Pow2(0) == v;
    }
  }

  lemma BitOfShl(v: nat, c: nat, j: nat)
    ensures Bit(Shl(v, c), j) == (j >= c && Bit(v, j - c))
  {
    BitOfJoined(v, c, 0, j);
    BitOfZero(j);
  }

  lemma {:induction false} BitAbove(v: nat, n: nat, j: nat)
    requires v < Pow2(n) && n <= j
    ensures !Bit(v, j)
    decreases n
  {
    if n == 0 { BitOfZero(j); } else { BitAbove(v / 2, n - 1, j - 1); }
  }

  lemma BitOfLow(v: nat, n: nat, j: nat)
    ensures Bit(Low(v, n), j) == (j < n && Bit(v, j))
  {
    BitOfJoined(Shr(v, n), n, Low(v, n), j);
    if j >= n { BitAbove(Low(v, n), n, j); }
  }

  ghost predicate SameBits(a: nat, b: nat) {
    forall j: nat :: Bit(a, j) == Bit(b, j)
  }

  lemma {:induction false} SameBitsSameNumber(a: nat, b: nat)
    requires SameBits(a, b)
    ensures a == b
    decreases a + b
  {
    if a + b > 0 {
      assert Bit(a, 0) == Bit(b, 0);
      forall j: nat ensures Bit(a / 2, j) == Bit(b / 2, j) {
        assert Bit(a, j + 1) == Bit(b, j + 1);
      }
      SameBitsSameNumber(a / 2, b / 2);
    }
  }

  lemma {:induction false} BitsBound(v: nat, n: nat)
    requires forall j: nat | j >= n :: !Bit(v, j)
    ensures v < Pow2(n)
    decreases v
  {
    if v > 0 {
      if n == 0 {
        NonZeroHasBit(v);
      } else {
        forall j: nat | j >= n - 1 ensures !Bit(v / 2, j) {
          assert !Bit(v, j + 1);
        }
        BitsBound(v / 2, n - 1);
      }
    }
  }

  lemma {:induction false} NonZeroHasBit(v: nat)
    requires v > 0
    ensures exists j: nat :: Bit(v, j)
  {
    if v % 2 == 1 {
      assert Bit(v, 0);
    } else {
      NonZeroHasBit(v / 2);
      var j: nat :| Bit(v / 2, j);
      assert Bit(v, j + 1);
    }
  }

  /** The lowest bit. */
  lemma {:induction false} TrailingZerosIsLowest(v: nat)
    requires v > 0
    ensures Bit(v, TrailingZeros(v)) && forall j: nat | j < TrailingZeros(v) :: !Bit(v, j)
  {
    if v % 2 == 0 {
      TrailingZerosIsLowest(v / 2);
      forall j: nat | j < TrailingZeros(v) ensures !Bit(v, j) {
        if j > 0 { assert !Bit(v / 2, j - 1); }
      }
    }
  }

  /** The index of the highest bit. */
  function Highest(v: nat): nat
    requires v > 0
  {
    if v == 1 then 0 else 1 + Highest(v / 2)
  }

  lemma {:induction false} HighestIsHighest(v: nat)
    requires v > 0
    ensures Bit(v, Highest(v)) && Pow2(Highest(v)) <= v < Pow2(Highest(v) + 1)
    ensures forall j: nat | j > Highest(v) :: !Bit(v, j)
  {
    if v > 1 { HighestIsHighest(v / 2); }
    forall j: nat | j > Highest(v) ensures !Bit(v, j) {
      BitAbove(v, Highest(v) + 1, j);
    }
  }
}
