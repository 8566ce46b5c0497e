/** Rotating a section of a bit vector, as the set operations of the source put it together. */
module Rotation {
  import opened BigInt
  import opened Bits
  import opened BitVecs

  /** The bits from `start` up to `end`. */
  function Section(start: nat, end: nat): nat
    requires start <= end
  {
    Shl(Pow2(end - start) - 1, start)
  }

  function Both(a: nat, b: nat): nat {
    AndBounds(a, b);
    And(a, b)
  }

  /** `rotate_right_helper`. */
  function Rotated(v: nat, start: nat, pivot: nat, end: nat): nat
    requires start <= pivot < end
  {
    var mask := Section(start, end);
    var section := Both(v, mask);
    var down := pivot - start;
    var up := end - start - down;
    Both(Or(Shr(section, down), Shl(section, up)), mask)
  }

  /** `rotate_right`, which clears the section first, and `rotate_right_copy`. */
  function RotateRight(v: nat, start: nat, pivot: nat, end: nat): nat
    requires start <= pivot < end
  {
    Or(AndNot(v, Section(start, end)), Rotated(v, start, pivot, end))
  }

  function RotateRightCopy(v: nat, start: nat, pivot: nat, end: nat): nat
    requires start <= pivot < end
  {
    Or(Rotated(v, start, pivot, end), AndNot(v, Section(start, end)))
  }

  /** Where the bit that ends up at `j` comes from, and where the bit at `j` goes. */
  function Source(start: nat, pivot: nat, end: nat, j: nat): nat
    requires start <= pivot < end
  {
    if !(start <= j < end) then j
    else if j + (pivot - start) < end then j + (pivot - start)
    else j - (end - pivot)
  }

  function Target(start: nat, pivot: nat, end: nat, j: nat): nat
    requires start <= pivot < end
  {
    if !(start <= j < end) then j else if j >= pivot then j - (pivot - start) else j + (end - pivot)
  }

  /** Each bit of the section goes to one place in it, the pivot to its start; the rest stay. */
  lemma RotationIsBijection(start: nat, pivot: nat, end: nat, j: nat)
    requires start <= pivot < end
    ensures Source(start, pivot, end, Target(start, pivot, end, j)) == j
    ensures Target(start, pivot, end, Source(start, pivot, end, j)) == j
    ensures start <= j < end <==> start <= Source(start, pivot, end, j) < end
    ensures Target(start, pivot, end, pivot) == start
  {
  }

  lemma BitOfSection(start: nat, end: nat, j: nat)
    requires start <= end
    ensures Bit(Section(start, end), j) == (start <= j < end)
  {
    BitOfShl(Pow2(end - start) - 1, start, j);
    if j >= start { BitOfOnes(end - start, j - start); }
  }

  lemma BitOfRotated(v: nat, start: nat, pivot: nat, end: nat, j: nat)
    requires start <= pivot < end
    ensures Bit(Rotated(v, start, pivot, end), j) == (start <= j < end && Bit(v, Source(start, pivot, end, j)))
  {
    var mask := Section(start, end);
    var section := Both(v, mask);
    var down := pivot - start;
    var up := end - start - down;
    BitOfAnd(Or(Shr(section, down), Shl(section, up)), mask, j);
    BitOfOr(Shr(section, down), Shl(section, up), j);
    BitOfShr(section, down, j);
    BitOfShl(section, up, j);
    BitOfSection(start, end, j);
    BitOfAnd(v, mask, down + j);
    BitOfSection(start, end, down + j);
    if j >= up {
      BitOfAnd(v, mask, j - up);
      BitOfSection(start, end, j - up);
    }
  }

  /** The bits are those that were where they come from, no more and no fewer. */
  lemma BitOfRotateRight(v: nat, start: nat, pivot: nat, end: nat, j: nat)
    requires start <= pivot < end
    ensures Bit(RotateRight(v, start, pivot, end), j) == Bit(v, Source(start, pivot, end, j))
  {
    var mask := Section(start, end);
    BitOfOr(AndNot(v, mask), Rotated(v, start, pivot, end), j);
    BitOfAndNot(v, mask, j);
    BitOfSection(start, end, j);
    BitOfRotated(v, start, pivot, end, j);
  }

  /** Rotating in place and rotating a copy agree. */
  lemma RotationsAgree(v: nat, start: nat, pivot: nat, end: nat)
    requires start <= pivot < end
    ensures RotateRight(v, start, pivot, end) == RotateRightCopy(v, start, pivot, end)
  {
    var rest, section := AndNot(v, Section(start, end)), Rotated(v, start, pivot, end);
    forall j: nat ensures Bit(Or(rest, section), j) == Bit(Or(section, rest), j) {
      BitOfOr(rest, section, j);
      BitOfOr(section, rest, j);
    }
    SameBitsSameNumber(Or(rest, section), Or(section, rest));
  }

  /** Rotating by the rest of the section undoes it. */
  lemma RotatingBack(v: nat, start: nat, pivot: nat, end: nat)
    requires start < pivot < end
    ensures RotateRight(RotateRight(v, start, pivot, end), start, start + (end - pivot), end) == v
  {
    var w, back := RotateRight(v, start, pivot, end), start + (end - pivot);
    forall j: nat ensures Bit(RotateRight(w, start, back, end), j) == Bit(v, j) {
      BitOfRotateRight(w, start, back, end, j);
      BitOfRotateRight(v, start, pivot, end, Source(start, back, end, j));
      assert Source(start, pivot, end, Source(start, back, end, j)) == j;
    }
    SameBitsSameNumber(RotateRight(w, start, back, end), v);
  }
}
