/** `lib/bitrange.h`: division that rounds down, and ranges of bits and bytes. */
module Ranges {
  import opened BigInt

  // ---------------------------------------------------------------- division

  /** C++'s `/` and `%`, which round towards zero. */
  function Quot(a: int, b: int): int
    requires b != 0
  {
    if a >= 0 then a / b else -(-a / b)
  }

  function Rem(a: int, b: int): int
    requires b != 0
  {
    a - Quot(a, b) * b
  }

  function DivideFloor(dividend: int, divisor: int): int
    requires divisor != 0
  {
    var quotient, remainder := Quot(dividend, divisor), Rem(dividend, divisor);
    if remainder != 0 && (remainder < 0) != (divisor < 0) then quotient - 1 else quotient
  }

  function Modulo(dividend: int, divisor: int): int
    requires divisor != 0
  {
    Rem(dividend, divisor) * if (dividend < 0) != (divisor < 0) then -1 else 1
  }

  function ModuloFloor(dividend: int, divisor: int): int
    requires divisor != 0
  {
    var remainder := Modulo(dividend, divisor);
    if remainder == 0 || dividend >= 0 then remainder else divisor - remainder
  }

  /** The forms for powers of two: an arithmetic shift right and a mask. */
  function ShiftRight(dividend: int, k: nat): int
    decreases k
  {
    if k == 0 then dividend else ShiftRight(dividend / 2, k - 1)
  }

  function MaskOff(dividend: int, k: nat): int {
    And(dividend, Pow2(k) - 1)
  }

  lemma QuotientLaw(a: int, b: int, q: int, r: int)
    requires b > 0 && a == q * b + r && 0 <= r < b
    ensures a / b == q && a % b == r
  {
    TimesMonotone(q, a / b, b);
    TimesMonotone(a / b, q, b);
  }

  /** The law of division that rounds down, for positive divisors. */
  lemma FloorDivision(dividend: int, divisor: int)
    requires divisor > 0
    ensures var q, r := DivideFloor(dividend, divisor), ModuloFloor(dividend, divisor);
            dividend == q * divisor + r && 0 <= r < divisor
  {
    if dividend >= 0 {
      assert Rem(dividend, divisor) == dividend % divisor;
    } else {
      var q := -dividend / divisor;
      var r := -dividend % divisor;
      assert -dividend == q * divisor + r && Quot(dividend, divisor) == -q;
      assert -q * divisor == -(q * divisor);
      assert Rem(dividend, divisor) == -r;
      assert (-q - 1) * divisor == -q * divisor - divisor;
    }
  }

  lemma Doubled(s: int, p: int)
    ensures s * (2 * p) == 2 * (s * p)
  {
  }

  lemma {:induction false} ShiftAndMask(dividend: int, k: nat)
    ensures dividend == ShiftRight(dividend, k) * Pow2(k) + MaskOff(dividend, k) && 0 <= MaskOff(dividend, k) < Pow2(k)
    decreases k
  {
    if k == 0 {
      AndZero(dividend);
    } else {
      var mask, half := Pow2(k) - 1, dividend / 2;
      ShiftAndMask(half, k - 1);
      assert mask / 2 == Pow2(k - 1) - 1 && mask % 2 == 1;
      assert MaskOff(dividend, k) == 2 * MaskOff(half, k - 1) + dividend % 2;
      Doubled(ShiftRight(half, k - 1), Pow2(k - 1));
    }
  }

  /** The fast forms agree with the slow ones. */
  lemma FastFormsAgree(dividend: int, k: nat)
    ensures ShiftRight(dividend, k) == DivideFloor(dividend, Pow2(k))
    ensures MaskOff(dividend, k) == ModuloFloor(dividend, Pow2(k))
  {
    var p := Pow2(k);
    FloorDivision(dividend, p);
    ShiftAndMask(dividend, k);
    QuotientLaw(dividend, p, DivideFloor(dividend, p), ModuloFloor(dividend, p));
    QuotientLaw(dividend, p, ShiftRight(dividend, k), MaskOff(dividend, k));
  }

  // ---------------------------------------------------------------- half-open ranges

  datatype HalfOpenRange = Range(lo: int, hi: int) {
    predicate IsEmpty() {
      lo == hi
    }

    predicate Contains(i: int) {
      lo <= i < hi
    }

    predicate WellFormed() {
      lo <= hi
    }

    function IntersectWith(a: HalfOpenRange): HalfOpenRange {
      var l, h := if lo > a.lo then lo else a.lo, if hi < a.hi then hi else a.hi;
      if h <= l then Range(0, 0) else Range(l, h)
    }

    /** In bits; the unit of the range is bytes. */
    function BytesToBits(): HalfOpenRange {
      if IsEmpty() then Range(0, 0) else Range(lo * 8, hi * 8)
    }

    function LoByte(): int {
      if IsEmpty() then 0 else DivideFloor(lo, 8)
    }

    function HiByte(): int {
      if IsEmpty() then 0 else DivideFloor(hi - 1, 8)
    }

    function NextByte(): int {
      if IsEmpty() then 0 else HiByte() + 1
    }

    /** In bytes; the unit of the range is bits. */
    function BitsToBytes(): HalfOpenRange {
      if IsEmpty() then Range(0, 0) else Range(LoByte(), NextByte())
    }

    ghost predicate Within(other: HalfOpenRange) {
      forall i | Contains(i) :: other.Contains(i)
    }
  }

  function FromTo(from: int, to: int): HalfOpenRange {
    Range(from, to + 1)
  }

  function Subtract(left: HalfOpenRange, right: HalfOpenRange): (HalfOpenRange, HalfOpenRange) {
    var empty := Range(0, 0);
    var intersect := left.IntersectWith(right);
    if intersect.IsEmpty() then
      if left.lo < right.lo then (left, empty) else (empty, left)
    else
      (if left.lo == intersect.lo then empty else FromTo(left.lo, intersect.lo - 1),
       if left.hi == intersect.hi then empty else FromTo(intersect.hi, left.hi - 1))
  }

  /** What is in both is in the intersection, and nothing else. */
  lemma IntersectionContains(a: HalfOpenRange, b: HalfOpenRange, i: int)
    ensures a.IntersectWith(b).Contains(i) <==> a.Contains(i) && b.Contains(i)
  {
  }

  /** Subtraction gives two ranges with nothing in common, the lower one first, that together hold
      what is in `left` but not in `right`. */
  lemma SubtractionIsDifference(left: HalfOpenRange, right: HalfOpenRange, i: int)
    requires left.WellFormed() && right.WellFormed()
    ensures var (lower, upper) := Subtract(left, right);
            && (lower.Contains(i) || upper.Contains(i) <==> left.Contains(i) && !right.Contains(i))
            && !(lower.Contains(i) && upper.Contains(i))
            && lower.WellFormed() && upper.WellFormed()
            && (lower.IsEmpty() || upper.IsEmpty() || lower.hi <= upper.lo)
  {
  }

  lemma WithinIffBounds(a: HalfOpenRange, b: HalfOpenRange)
    requires a.lo < a.hi
    ensures a.Within(b) <==> b.lo <= a.lo && a.hi <= b.hi
  {
    assert a.Contains(a.lo) && a.Contains(a.hi - 1);
  }

  /** The bytes of a range of bits are the fewest that hold them all: a range of bytes holds the bits
      exactly if it holds those bytes. */
  lemma LeastEnclosingBytes(bits: HalfOpenRange, bytes: HalfOpenRange)
    requires bits.lo < bits.hi && bytes.WellFormed()
    ensures bits.Within(bytes.BytesToBits()) <==> bits.BitsToBytes().Within(bytes)
  {
    var around := bits.BitsToBytes();
    WithinIffBounds(bits, bytes.BytesToBits());
    WithinIffBounds(around, bytes);
  }

  /** Going from bytes to bits and back loses nothing; the other way it does exactly if an end is not
      aligned. */
  lemma UnitRoundTrips(r: HalfOpenRange)
    requires r.lo < r.hi
    ensures r.BytesToBits().BitsToBytes() == r
    ensures r.BitsToBytes().BytesToBits() == r <==> ModuloFloor(r.lo, 8) == 0 && ModuloFloor(r.hi, 8) == 0
  {
    FloorDivision(r.lo, 8);
    FloorDivision(r.hi, 8);
  }
}
