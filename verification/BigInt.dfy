/** Integers of any size as bits, and the loops over them. */
module BigInt {

  function Pow2(n: nat): (r: nat)
    ensures r > 0
  {
    if n == 0 then 1 else 2 * Pow2(n - 1)
  }

  lemma {:induction false} Pow2Sum(m: nat, n: nat)
    ensures Pow2(m + n) == Pow2(m) * Pow2(n)
    decreases m
  {
    if m > 0 { Pow2Sum(m - 1, n); }
  }

  lemma {:induction false} Pow2Grows(m: nat, n: nat)
    requires m <= n
    ensures Pow2(m) <= Pow2(n)
    decreases n
  {
    if m < n { Pow2Grows(m, n - 1); }
  }

  /** Bitwise and, negative numbers being in two's complement. */
  function And(a: int, b: int): int
    decreases if a >= 0 then a else -a
  {
    if a == 0 then 0
    else if a == -1 then b
    else 2 * And(a / 2, b / 2) + if a % 2 == 1 && b % 2 == 1 then 1 else 0
  }

  function Popcount(v: nat): nat {
    if v == 0 then 0 else v % 2 + Popcount(v / 2)
  }

  /** The number of zeros below the lowest one. */
  function TrailingZeros(v: nat): nat
    requires v > 0
  {
    if v % 2 == 1 then 0 else 1 + TrailingZeros(v / 2)
  }

  lemma {:induction false} AndBounds(a: int, b: int)
    requires b >= 0
    ensures 0 <= And(a, b) <= b
    decreases if a >= 0 then a else -a
  {
    if a != 0 && a != -1 { AndBounds(a / 2, b / 2); }
  }

  lemma {:induction false} AndZero(a: int)
    ensures And(a, 0) == 0
    decreases if a >= 0 then a else -a
  {
    if a != 0 && a != -1 { AndZero(a / 2); }
  }

  /** Masking twice is masking once. */
  lemma {:induction false} AndAgain(a: int, b: int)
    ensures And(And(a, b), b) == And(a, b)
    decreases if a >= 0 then a else -a
  {
    if a == -1 {
      AndSelf(b);
    } else if a != 0 {
      AndAgain(a / 2, b / 2);
      AndHalves(a, b);
      AndHalves(And(a, b), b);
    }
  }

  lemma {:induction false} AndSelf(a: int)
    ensures And(a, a) == a
    decreases if a >= 0 then a else -a
  {
    if a != 0 && a != -1 {
      AndSelf(a / 2);
    }
  }

  /** Halving goes through. */
  lemma AndHalves(a: int, b: int)
    ensures And(a, b) / 2 == And(a / 2, b / 2)
    ensures And(a, b) % 2 == if a % 2 == 1 && b % 2 == 1 then 1 else 0
  {
  }

  /** Clearing the lowest one leaves one fewer. */
  lemma {:induction false} ClearsLowest(v: nat)
    requires v > 0
    ensures 0 <= And(v, v - 1) < v && Popcount(And(v, v - 1)) + 1 == Popcount(v)
  {
    AndBounds(v, v - 1);
    if v % 2 == 1 {
      assert (v - 1) / 2 == v / 2;
      AndSelf(v / 2);
      AndHalves(v, v - 1);
    } else {
      assert (v - 1) / 2 == v / 2 - 1;
      ClearsLowest(v / 2);
      AndHalves(v, v - 1);
    }
  }

  /** Kernighan's loop; the source answers `~0U` for a negative number. */
  method Bitcount(v: int) returns (count: nat)
    ensures count == if v < 0 then 0xffff_ffff else Popcount(v)
  {
    if v < 0 { return 0xffff_ffff; }
    count := 0;
    var rest := v;
    while rest != 0
      invariant rest >= 0 && count + Popcount(rest) == Popcount(v)
    {
      ClearsLowest(rest);
      rest := And(rest, rest - 1);
      count := count + 1;
    }
  }

  method FloorLog2(v: int) returns (r: int)
    ensures r >= -1 && (r == -1 <==> v <= 0)
    ensures v > 0 ==> Pow2(r) <= v < Pow2(r + 1)
  {
    r := -1;
    var rest := v;
    while rest > 0
      invariant r >= -1 && (r == -1 ==> rest == v) && (v > 0 ==> rest >= 0)
      invariant r >= 0 ==> v >= Pow2(r)
      invariant v > 0 ==> rest * Pow2(r + 1) <= v < (rest + 1) * Pow2(r + 1)
    {
      HalfAsMany(v, rest, Pow2(r + 1));
      r := r + 1;
      rest := rest / 2;
    }
  }

  lemma TimesMonotone(a: int, b: int, p: nat)
    ensures a <= b ==> a * p <= b * p
    ensures a < b ==> a * p + p <= b * p
  {
    if a < b {
      var d := b - a - 1;
      assert b * p == a * p + d * p + p && d * p >= 0;
    }
  }

  lemma HalfAsMany(v: nat, rest: nat, p: nat)
    requires 0 < rest && rest * p <= v < (rest + 1) * p
    ensures p <= v && rest / 2 * (2 * p) <= v < (rest / 2 + 1) * (2 * p)
  {
    var even := 2 * (rest / 2);
    TimesMonotone(1, rest, p);
    TimesMonotone(even, rest, p);
    TimesMonotone(rest + 1, even + 2, p);
    assert rest / 2 * (2 * p) == even * p;
    assert (rest / 2 + 1) * (2 * p) == (even + 2) * p;
  }

  // ---------------------------------------------------------------- prefix masks

  /** The mask of the upper `len` of `width` bits. */
  function PrefixMask(width: nat, len: nat): nat
    requires len <= width
  {
    Pow2Grows(width - len, width);
    Pow2(width) - Pow2(width - len)
  }

  function ZerosBelow(mask: nat, width: nat): nat {
    if mask == 0 then width else TrailingZeros(mask)
  }

  lemma {:induction false} PopcountOfOnes(n: nat)
    ensures Popcount(Pow2(n) - 1) == n
  {
    if n > 0 {
      PopcountOfOnes(n - 1);
      assert (Pow2(n) - 1) / 2 == Pow2(n - 1) - 1;
    }
  }

  /** No number has more ones than bits, and only all ones has as many. */
  lemma {:induction false} PopcountBound(v: nat, n: nat)
    requires v < Pow2(n)
    ensures Popcount(v) <= n && (Popcount(v) == n ==> v == Pow2(n) - 1)
  {
    if v > 0 {
      PopcountBound(v / 2, n - 1);
    } else if n > 0 {
      assert Popcount(v) == 0;
    }
  }

  /** For a mask in width, trailing zeros and ones together make up the width exactly if the mask
      is that of a prefix. */
  lemma {:induction false} PrefixMaskIff(mask: nat, width: nat)
    requires mask < Pow2(width)
    ensures ZerosBelow(mask, width) + Popcount(mask) == width <==>
              ZerosBelow(mask, width) <= width && mask == PrefixMask(width, width - ZerosBelow(mask, width))
    decreases width
  {
    if mask > 0 {
      if mask % 2 == 1 {
        PopcountBound(mask, width);
        PopcountOfOnes(width);
      } else {
        PrefixMaskIff(mask / 2, width - 1);
        PrefixMaskHalves(mask, width);
      }
    }
  }

  lemma PrefixMaskHalves(mask: nat, width: nat)
    requires 0 < mask && mask % 2 == 0 && 0 < width
    ensures var z := TrailingZeros(mask);
            z <= width ==> (mask == PrefixMask(width, width - z) <==> mask / 2 == PrefixMask(width - 1, width - z))
  {
  }

  /** Over-width masks may slip through the test: for a width of 2, this one has its two ones apart. */
  lemma OverwideMaskPasses()
    ensures ZerosBelow(5, 2) + Popcount(5) == 2 && 5 >= Pow2(2)
  {
    assert Popcount(5) == 1 + Popcount(2) && Popcount(2) == Popcount(1);
    assert Pow2(2) == 2 * Pow2(1);
  }

  /** A mask beyond the width with no more ones than bits leaves a bit in width free: there is
      another number with the same bits under the mask, which differs above the mask's zeros. */
  lemma {:induction false} FreeBit(mask: nat, c: nat, width: nat) returns (v: nat)
    requires mask >= Pow2(width) && ZerosBelow(mask, width) + Popcount(mask) <= width
    requires c < Pow2(width) && And(c, mask) == c
    ensures v < Pow2(width) && And(v, mask) == c && ZerosBelow(mask, width) <= width
    ensures v / Pow2(ZerosBelow(mask, width)) != c / Pow2(ZerosBelow(mask, width))
    decreases width
  {
    HalvesOfBits(mask, c, width);
    if mask % 2 == 0 {
      var half := FreeBit(mask / 2, c / 2, width - 1);
      v := 2 * half;
      AndHalves(v, mask);
      DifferTwice(v, c, Pow2(ZerosBelow(mask / 2, width - 1)));
      assert Pow2(ZerosBelow(mask, width)) == 2 * Pow2(ZerosBelow(mask / 2, width - 1));
    } else {
      v := OtherNumber(mask, c, width);
      assert v / 1 == v && c / 1 == c;
    }
  }

  lemma DifferTwice(v: nat, c: nat, p: nat)
    requires p > 0 && v / 2 / p != c / 2 / p
    ensures v / (2 * p) != c / (2 * p)
  {
    DivTwice(v, p);
    DivTwice(c, p);
  }

  lemma HalvesOfBits(mask: nat, c: nat, width: nat)
    requires mask >= Pow2(width) && Popcount(mask) <= width && c < Pow2(width) && And(c, mask) == c
    ensures width > 0 && mask / 2 >= Pow2(width - 1) && c / 2 < Pow2(width - 1) && And(c / 2, mask / 2) == c / 2
    ensures c % 2 == 1 ==> mask % 2 == 1
  {
    if width == 0 { PopcountOfSome(mask); }
    AndHalves(c, mask);
  }

  lemma {:induction false} PopcountOfSome(v: nat)
    requires v > 0
    ensures Popcount(v) > 0
  {
    if v % 2 == 0 { PopcountOfSome(v / 2); }
  }

  lemma {:induction false} OtherNumber(mask: nat, c: nat, width: nat) returns (v: nat)
    requires mask >= Pow2(width) && Popcount(mask) <= width && c < Pow2(width) && And(c, mask) == c
    ensures v < Pow2(width) && v != c && And(v, mask) == c
    decreases width
  {
    HalvesOfBits(mask, c, width);
    if mask % 2 == 0 {
      v := c + 1;
    } else {
      var half := OtherNumber(mask / 2, c / 2, width - 1);
      v := 2 * half + c % 2;
    }
    AndHalves(v, mask);
    AndHalves(c, mask);
  }

  lemma {:induction false} AndOnes(v: nat, width: nat)
    requires v < Pow2(width)
    ensures And(v, Pow2(width) - 1) == v
  {
    if v > 0 {
      var ones := Pow2(width) - 1;
      assert ones / 2 == Pow2(width - 1) - 1 && ones % 2 == 1;
      AndOnes(v / 2, width - 1);
      AndHalves(v, ones);
    }
  }

  lemma DivTwice(v: nat, p: nat)
    requires p > 0
    ensures v / 2 / p == v / (2 * p)
  {
    var q := v / (2 * p);
    var low := v % (2 * p);
    assert v == 2 * (q * p) + low;
    assert v / 2 == q * p + low / 2 && low / 2 < p;
    QuotientIs(v / 2, p, q, low / 2);
  }

  lemma QuotientIs(v: nat, p: nat, q: nat, low: nat)
    requires v == q * p + low && low < p
    ensures v / p == q
  {
    TimesMonotone(q, v / p, p);
    TimesMonotone(v / p, q, p);
  }

  lemma PrefixMaskHalf(width: nat, len: nat)
    requires len < width
    ensures PrefixMask(width, len) % 2 == 0 && PrefixMask(width, len) / 2 == PrefixMask(width - 1, len)
  {
    assert Pow2(width) == 2 * Pow2(width - 1) && Pow2(width - len) == 2 * Pow2(width - 1 - len);
  }

  /** `v` with its lower `k` bits cleared. */
  function Cleared(v: nat, k: nat): nat {
    if k == 0 then v else 2 * Cleared(v / 2, k - 1)
  }

  lemma {:induction false} PrefixMaskClears(v: nat, width: nat, len: nat)
    requires v < Pow2(width) && len <= width
    ensures And(v, PrefixMask(width, len)) == Cleared(v, width - len)
    decreases width
  {
    if len == width {
      AndOnes(v, width);
    } else {
      PrefixMaskHalf(width, len);
      AndHalves(v, PrefixMask(width, len));
      PrefixMaskClears(v / 2, width - 1, len);
    }
  }

  lemma {:induction false} ClearedAlike(v: nat, b: nat, k: nat)
    ensures Cleared(v, k) == Cleared(b, k) <==> v / Pow2(k) == b / Pow2(k)
  {
    if k > 0 {
      ClearedAlike(v / 2, b / 2, k - 1);
      DivTwice(v, Pow2(k - 1));
      DivTwice(b, Pow2(k - 1));
    }
  }

  /** Agreeing with a masked value under a prefix mask is agreeing with it in the upper bits. */
  lemma PrefixMaskMatches(v: nat, b: nat, width: nat, len: nat)
    requires v < Pow2(width) && len <= width && And(b, PrefixMask(width, len)) == b
    ensures And(v, PrefixMask(width, len)) == b <==> v / Pow2(width - len) == b / Pow2(width - len)
  {
    AndBounds(b, PrefixMask(width, len));
    PrefixMaskClears(v, width, len);
    PrefixMaskClears(b, width, len);
    ClearedAlike(v, b, width - len);
  }
}
