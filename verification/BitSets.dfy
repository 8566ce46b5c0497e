/** The set operations of `bitvec`, word by word, and rotation, which is put together from them. */
module BitSets {
  import opened BigInt
  import opened Bits
  import opened Words
  import opened BitVecs
  import opened Rotation

  // ---------------------------------------------------------------- on words

  lemma AndFits(a: Word, b: nat)
    ensures Both(a, b) < Base && AndNot(a, b) < Base
  {
    forall j: nat | j >= 64 ensures !Bit(Both(a, b), j) && !Bit(AndNot(a, b), j) {
      BitOfAnd(a, b, j);
      BitOfAndNot(a, b, j);
      NoBit(a, j);
    }
    IsWord(Both(a, b));
    IsWord(AndNot(a, b));
  }

  function AndWord(a: Word, b: Word): Word {
    AndFits(a, b);
    Both(a, b)
  }

  /** `a & ~b`. */
  function AndNotWord(a: Word, b: Word): Word {
    AndFits(a, b);
    AndNot(a, b)
  }

  /** Word `i`, or zero if there is none. */
  function WordAt(ws: seq<Word>, i: nat): Word {
    if i < |ws| then ws[i] else 0
  }

  lemma GetBitOfWordAt(ws: seq<Word>, n: nat)
    ensures GetBit(ws, n) == Bit(WordAt(ws, n / 64), n % 64)
  {
    BitOfZero(n % 64);
  }

  /** `r` is `ws` with the bits of `vs` added, kept, or taken away. */
  ghost predicate IsOr(r: seq<Word>, ws: seq<Word>, vs: seq<Word>) {
    forall i: nat :: WordAt(r, i) == OrWord(WordAt(ws, i), WordAt(vs, i))
  }

  ghost predicate IsAnd(r: seq<Word>, ws: seq<Word>, vs: seq<Word>) {
    forall i: nat :: WordAt(r, i) == AndWord(WordAt(ws, i), WordAt(vs, i))
  }

  ghost predicate IsAndNot(r: seq<Word>, ws: seq<Word>, vs: seq<Word>) {
    forall i: nat :: WordAt(r, i) == AndNotWord(WordAt(ws, i), WordAt(vs, i))
  }

  lemma ValueOfOr(r: seq<Word>, ws: seq<Word>, vs: seq<Word>)
    requires IsOr(r, ws, vs)
    ensures Value(r) == Or(Value(ws), Value(vs))
  {
    forall n: nat ensures GetBit(r, n) == Bit(Or(Value(ws), Value(vs)), n) {
      ThreeBits(r, ws, vs, n);
      BitOfOr(Value(ws), Value(vs), n);
      BitOfOr(WordAt(ws, n / 64), WordAt(vs, n / 64), n % 64);
    }
    SameBitsSameValue(r, Or(Value(ws), Value(vs)));
  }

  lemma ValueOfAnd(r: seq<Word>, ws: seq<Word>, vs: seq<Word>)
    requires IsAnd(r, ws, vs)
    ensures Value(r) == Both(Value(ws), Value(vs))
  {
    forall n: nat ensures GetBit(r, n) == Bit(Both(Value(ws), Value(vs)), n) {
      ThreeBits(r, ws, vs, n);
      BitOfAnd(Value(ws), Value(vs), n);
      BitOfAnd(WordAt(ws, n / 64), WordAt(vs, n / 64), n % 64);
    }
    SameBitsSameValue(r, Both(Value(ws), Value(vs)));
  }

  lemma ValueOfAndNot(r: seq<Word>, ws: seq<Word>, vs: seq<Word>)
    requires IsAndNot(r, ws, vs)
    ensures Value(r) == AndNot(Value(ws), Value(vs))
  {
    forall n: nat ensures GetBit(r, n) == Bit(AndNot(Value(ws), Value(vs)), n) {
      ThreeBits(r, ws, vs, n);
      BitOfAndNot(Value(ws), Value(vs), n);
      BitOfAndNot(WordAt(ws, n / 64), WordAt(vs, n / 64), n % 64);
    }
    SameBitsSameValue(r, AndNot(Value(ws), Value(vs)));
  }

  lemma ThreeBits(r: seq<Word>, ws: seq<Word>, vs: seq<Word>, n: nat)
    ensures GetBit(r, n) == Bit(WordAt(r, n / 64), n % 64)
    ensures Bit(Value(ws), n) == Bit(WordAt(ws, n / 64), n % 64)
    ensures Bit(Value(vs), n) == Bit(WordAt(vs, n / 64), n % 64)
  {
    GetBitOfWordAt(r, n);
    GetBitOfWordAt(ws, n);
    GetBitOfWordAt(vs, n);
    BitOfValue(ws, n);
    BitOfValue(vs, n);
  }

  lemma NothingLeft(b: Word)
    ensures AndWord(0, b) == 0 && AndNotWord(0, b) == 0 && OrWord(0, b) == b
  {
  }

  lemma NothingTaken(a: Word)
    ensures AndWord(a, 0) == 0 && AndNotWord(a, 0) == a && OrWord(a, 0) == a
  {
    AndZero(a);
    AndNotNothing(a);
    OrNothing(a);
  }

  /** As many words of the same value are the same words. */
  lemma SameValueSameWords(r: seq<Word>, ws: seq<Word>)
    requires |r| == |ws|
    ensures Value(r) == Value(ws) <==> r == ws
  {
    if Value(r) == Value(ws) {
      forall i | 0 <= i < |ws| ensures r[i] == ws[i] {
        forall j: nat ensures Bit(r[i], j) == Bit(ws[i], j) {
          if j < 64 {
            Position(64 * i + j, i, j);
            BitOfValue(r, 64 * i + j);
            BitOfValue(ws, 64 * i + j);
          } else {
            NoBit(r[i], j);
            NoBit(ws[i], j);
          }
        }
        SameBitsSameNumber(r[i], ws[i]);
      }
    }
  }

  // ---------------------------------------------------------------- on vectors

  /** `operator|=`. */
  method OrWith(v: BitVec, a: BitVec) returns (changed: bool)
    requires v.Valid() && a.Valid() && (v == a || v.ptr != a.ptr) && a.size < Limit
    modifies v, v.ptr
    ensures v.Valid() && (v.ptr == old(v.ptr) || fresh(v.ptr))
    ensures v != a ==> a.Valid() && a.Contents() == old(a.Contents())
    ensures v.size == old(v.size) || 4 * v.size <= 5 * a.size
    ensures v.Number() == Or(old(v.Number()), old(a.Number())) && (changed <==> v.Number() != old(v.Number()))
  {
    RoundUpBounds(a.size);
    if v.size < a.size { v.Expand(a.size); }
    changed := OrWords(v, a);
  }

  method OrWords(v: BitVec, a: BitVec) returns (changed: bool)
    requires v.Valid() && a.Valid() && (v == a || v.ptr != a.ptr) && a.size <= v.size
    modifies v.ptr
    ensures v.Number() == Or(old(v.Number()), old(a.Number())) && (changed <==> v.Number() != old(v.Number()))
  {
    changed := false;
    ghost var ws, vs := v.Contents(), a.Contents();
    for i := 0 to a.size
      invariant forall k | i <= k < a.size :: a.ptr[k] == vs[k]
      invariant forall k | 0 <= k < i :: v.ptr[k] == OrWord(ws[k], vs[k])
      invariant changed <==> exists k :: 0 <= k < i && v.ptr[k] != ws[k]
      invariant forall k | i <= k < v.size :: v.ptr[k] == ws[k]
    {
      changed := changed || OrWord(v.ptr[i], a.ptr[i]) != v.ptr[i];
      v.ptr[i] := OrWord(v.ptr[i], a.ptr[i]);
    }
    SameValueSameWords(v.Contents(), ws);
    forall i: nat ensures WordAt(v.Contents(), i) == OrWord(WordAt(ws, i), WordAt(vs, i)) {
      NothingTaken(WordAt(ws, i));
    }
    ValueOfOr(v.Contents(), ws, vs);
  }

  /** `operator&=`. */
  method AndWith(v: BitVec, a: BitVec) returns (changed: bool)
    requires v.Valid() && a.Valid() && (v == a || v.ptr != a.ptr)
    modifies v.ptr
    ensures v.Number() == Both(old(v.Number()), old(a.Number())) && (changed <==> v.Number() != old(v.Number()))
  {
    changed := false;
    ghost var ws, vs := v.Contents(), a.Contents();
    for i := 0 to v.size
      invariant forall k | i <= k < a.size :: a.ptr[k] == vs[k]
      invariant forall k | 0 <= k < i :: v.ptr[k] == AndWord(ws[k], WordAt(vs, k))
      invariant changed <==> exists k :: 0 <= k < i && v.ptr[k] != ws[k]
      invariant forall k | i <= k < v.size :: v.ptr[k] == ws[k]
    {
      if i < a.size {
        changed := changed || AndWord(v.ptr[i], a.ptr[i]) != v.ptr[i];
        v.ptr[i] := AndWord(v.ptr[i], a.ptr[i]);
      } else {
        NothingTaken(ws[i]);
        changed := changed || v.ptr[i] != 0;
        v.ptr[i] := 0;
      }
    }
    SameValueSameWords(v.Contents(), ws);
    forall i: nat ensures WordAt(v.Contents(), i) == AndWord(WordAt(ws, i), WordAt(vs, i)) {
      NothingLeft(WordAt(vs, i));
    }
    ValueOfAnd(v.Contents(), ws, vs);
  }

  /** `operator-=`. */
  method Without(v: BitVec, a: BitVec) returns (changed: bool)
    requires v.Valid() && a.Valid() && (v == a || v.ptr != a.ptr)
    modifies v.ptr
    ensures v.Number() == AndNot(old(v.Number()), old(a.Number())) && (changed <==> v.Number() != old(v.Number()))
  {
    changed := false;
    ghost var ws, vs := v.Contents(), a.Contents();
    for i := 0 to if v.size < a.size then v.size else a.size
      invariant forall k | i <= k < a.size :: a.ptr[k] == vs[k]
      invariant forall k | 0 <= k < i :: v.ptr[k] == AndNotWord(ws[k], vs[k])
      invariant changed <==> exists k :: 0 <= k < i && v.ptr[k] != ws[k]
      invariant forall k | i <= k < v.size :: v.ptr[k] == ws[k]
    {
      changed := changed || AndNotWord(v.ptr[i], a.ptr[i]) != v.ptr[i];
      v.ptr[i] := AndNotWord(v.ptr[i], a.ptr[i]);
    }
    AndNotInPlace(v.Contents(), ws, vs);
  }

  lemma AndNotInPlace(r: seq<Word>, ws: seq<Word>, vs: seq<Word>)
    requires |r| == |ws| && forall k | 0 <= k < |ws| :: r[k] == if k < |vs| then AndNotWord(ws[k], vs[k]) else ws[k]
    ensures Value(r) == AndNot(Value(ws), Value(vs)) && (Value(r) == Value(ws) <==> r == ws)
  {
    SameValueSameWords(r, ws);
    forall i: nat ensures WordAt(r, i) == AndNotWord(WordAt(ws, i), WordAt(vs, i)) {
      NothingLeft(WordAt(vs, i));
      NothingTaken(WordAt(ws, i));
    }
    ValueOfAndNot(r, ws, vs);
  }

  // ---------------------------------------------------------------- ranges

  /** The bits of `[lo, hi)` that are in word `i`. */
  function RangeWord(i: nat, lo: nat, hi: nat): Word
    requires lo <= hi
  {
    BaseIsPow2();
    Low(Shr(Section(lo, hi), 64 * i), 64)
  }

  lemma BitOfRangeWord(i: nat, lo: nat, hi: nat, j: nat)
    requires lo <= hi
    ensures Bit(RangeWord(i, lo, hi), j) == (j < 64 && lo <= 64 * i + j < hi)
  {
    BitOfLow(Shr(Section(lo, hi), 64 * i), 64, j);
    BitOfShr(Section(lo, hi), 64 * i, j);
    BitOfSection(lo, hi, 64 * i + j);
  }

  /** The word with the lowest `n` bits. */
  function Ones(n: nat): (w: Word)
    requires n <= 64
  {
    BaseIsPow2();
    Pow2Grows(n, 64);
    Pow2(n) - 1
  }

  lemma RangeInWord(i: nat, lo: nat, n: nat)
    requires lo / 64 == i && lo % 64 + n <= 64
    ensures RangeWord(i, lo, lo + n) == ShlWord(Ones(n), lo % 64)
  {
    forall j: nat ensures Bit(RangeWord(i, lo, lo + n), j) == Bit(ShlWord(Ones(n), lo % 64), j) {
      BitOfRangeWord(i, lo, lo + n, j);
      BitOfShlWord(Ones(n), lo % 64, j);
      if j >= lo % 64 { BitOfOnes(n, j - lo % 64); }
    }
    SameBitsSameNumber(RangeWord(i, lo, lo + n), ShlWord(Ones(n), lo % 64));
  }

  lemma RangeReachesUp(i: nat, lo: nat, hi: nat)
    requires lo / 64 == i && 64 * (i + 1) <= hi
    ensures RangeWord(i, lo, hi) == ShlWord(Ones(64), lo % 64)
  {
    forall j: nat ensures Bit(RangeWord(i, lo, hi), j) == Bit(ShlWord(Ones(64), lo % 64), j) {
      BitOfRangeWord(i, lo, hi, j);
      BitOfShlWord(Ones(64), lo % 64, j);
      if j >= lo % 64 { BitOfOnes(64, j - lo % 64); }
    }
    SameBitsSameNumber(RangeWord(i, lo, hi), ShlWord(Ones(64), lo % 64));
  }

  lemma RangeFromBelow(i: nat, lo: nat, hi: nat)
    requires lo <= 64 * i <= hi
    ensures RangeWord(i, lo, hi) == Ones(if hi >= 64 * (i + 1) then 64 else hi - 64 * i)
  {
    var n := if hi >= 64 * (i + 1) then 64 else hi - 64 * i;
    forall j: nat ensures Bit(RangeWord(i, lo, hi), j) == Bit(Ones(n), j) {
      BitOfRangeWord(i, lo, hi, j);
      BitOfOnes(n, j);
    }
    SameBitsSameNumber(RangeWord(i, lo, hi), Ones(n));
  }

  lemma RangeMisses(i: nat, lo: nat, hi: nat)
    requires lo <= hi && (64 * (i + 1) <= lo || hi <= 64 * i)
    ensures RangeWord(i, lo, hi) == 0
  {
    forall j: nat ensures Bit(RangeWord(i, lo, hi), j) == Bit(0, j) {
      BitOfRangeWord(i, lo, hi, j);
      BitOfZero(j);
    }
    SameBitsSameNumber(RangeWord(i, lo, hi), 0);
  }

  /** Words below `i` have had the range added; the others are as they were. */
  ghost predicate RangeAdded(r: seq<Word>, ws: seq<Word>, lo: nat, hi: nat, i: nat)
    requires lo <= hi
  {
    |r| == |ws| && forall k | 0 <= k < |ws| :: r[k] == if k < i then OrWord(ws[k], RangeWord(k, lo, hi)) else ws[k]
  }

  ghost predicate RangeTaken(r: seq<Word>, ws: seq<Word>, lo: nat, hi: nat, i: nat)
    requires lo <= hi
  {
    |r| == |ws| && forall k | 0 <= k < |ws| :: r[k] == if k < i then AndNotWord(ws[k], RangeWord(k, lo, hi)) else ws[k]
  }

  lemma ValueOfAdded(r: seq<Word>, ws: seq<Word>, lo: nat, hi: nat)
    requires lo <= hi <= 64 * |ws| && RangeAdded(r, ws, lo, hi, |ws|)
    ensures Value(r) == Or(Value(ws), Section(lo, hi))
  {
    forall n: nat ensures GetBit(r, n) == Bit(Or(Value(ws), Section(lo, hi)), n) {
      var i, j := n / 64, n % 64;
      BitOfOr(Value(ws), Section(lo, hi), n);
      BitOfValue(ws, n);
      BitOfSection(lo, hi, n);
      BitOfRangeWord(i, lo, hi, j);
      if i < |ws| { BitOfOr(ws[i], RangeWord(i, lo, hi), j); }
    }
    SameBitsSameValue(r, Or(Value(ws), Section(lo, hi)));
  }

  lemma ValueOfTaken(r: seq<Word>, ws: seq<Word>, lo: nat, hi: nat)
    requires lo <= hi && RangeTaken(r, ws, lo, hi, |ws|)
    ensures Value(r) == AndNot(Value(ws), Section(lo, hi))
  {
    forall n: nat ensures GetBit(r, n) == Bit(AndNot(Value(ws), Section(lo, hi)), n) {
      var i, j := n / 64, n % 64;
      BitOfAndNot(Value(ws), Section(lo, hi), n);
      BitOfValue(ws, n);
      BitOfSection(lo, hi, n);
      BitOfRangeWord(i, lo, hi, j);
      if i < |ws| { BitOfAndNot(ws[i], RangeWord(i, lo, hi), j); }
    }
    SameBitsSameValue(r, AndNot(Value(ws), Section(lo, hi)));
  }

  lemma RangeElsewhere(ws: seq<Word>, lo: nat, hi: nat)
    requires lo <= hi
    ensures forall k | 0 <= k < |ws| && (64 * (k + 1) <= lo || hi <= 64 * k) ::
      OrWord(ws[k], RangeWord(k, lo, hi)) == ws[k] && AndNotWord(ws[k], RangeWord(k, lo, hi)) == ws[k]
  {
    forall k | 0 <= k < |ws| && (64 * (k + 1) <= lo || hi <= 64 * k)
      ensures OrWord(ws[k], RangeWord(k, lo, hi)) == ws[k] && AndNotWord(ws[k], RangeWord(k, lo, hi)) == ws[k]
    {
      RangeMisses(k, lo, hi);
      NothingTaken(ws[k]);
    }
  }

  lemma AllOnes(w: Word)
    ensures OrWord(w, Ones(64)) == Base - 1 && AndNotWord(w, Ones(64)) == 0 && Ones(64) == Base - 1
  {
    BaseIsPow2();
    forall j: nat ensures Bit(Or(w, Ones(64)), j) == Bit(Ones(64), j) && Bit(AndNot(w, Ones(64)), j) == Bit(0, j) {
      BitOfOr(w, Ones(64), j);
      BitOfAndNot(w, Ones(64), j);
      BitOfOnes(64, j);
      BitOfZero(j);
      if j >= 64 { NoBit(w, j); }
    }
    SameBitsSameNumber(Or(w, Ones(64)), Ones(64));
    SameBitsSameNumber(AndNot(w, Ones(64)), 0);
  }

  lemma EmptySection(v: nat, at: nat)
    ensures Section(at, at) == 0 && Or(v, Section(at, at)) == v && AndNot(v, Section(at, at)) == v
  {
    OrZero(v);
    AndNotNothing(v);
  }

  /** `setrange`. */
  method SetRange(v: BitVec, idx: nat, sz: nat)
    requires v.Valid() && idx + sz + 64 < 64 * Limit
    modifies v, v.ptr
    ensures v.Valid() && (v.ptr == old(v.ptr) || fresh(v.ptr))
    ensures v.Number() == Or(old(v.Number()), Section(idx, idx + sz))
  {
    if sz == 0 {
      EmptySection(v.Number(), idx);
      return;
    }
    if idx + sz > v.size * 64 { v.Expand(1 + (idx + sz - 1) / 64); }
    ghost var ws := v.Contents();
    SetWords(v, idx, sz);
    ValueOfAdded(v.Contents(), ws, idx, idx + sz);
  }

  method SetWords(v: BitVec, idx: nat, sz: nat)
    requires v.Valid() && 0 < sz && idx + sz <= 64 * v.size
    modifies v.ptr
    ensures RangeAdded(v.Contents(), old(v.Contents()), idx, idx + sz, v.size)
  {
    if idx / 64 == (idx + sz - 1) / 64 {
      var i := idx / 64;
      RangeInWord(i, idx, sz);
      SetWithin(v, i, ShlWord(Ones(sz), idx % 64), idx, idx + sz);
    } else {
      SetAcross(v, idx, idx + sz);
    }
  }

  /** A range within one word, or up to the end of the last. */
  method SetWithin(v: BitVec, i: nat, mask: Word, ghost lo: nat, ghost hi: nat)
    requires v.Valid() && i < v.size && lo / 64 == i && lo <= hi && (hi <= 64 * (i + 1) || i == v.size - 1)
    requires mask == RangeWord(i, lo, hi)
    modifies v.ptr
    ensures RangeAdded(v.Contents(), old(v.Contents()), lo, hi, v.size)
  {
    RangeElsewhere(v.Contents(), lo, hi);
    v.ptr[i] := OrWord(v.ptr[i], mask);
  }

  method ClrWithin(v: BitVec, i: nat, mask: Word, ghost lo: nat, ghost hi: nat)
    requires v.Valid() && i < v.size && lo / 64 == i && lo <= hi && (hi <= 64 * (i + 1) || i == v.size - 1)
    requires mask == RangeWord(i, lo, hi)
    modifies v.ptr
    ensures RangeTaken(v.Contents(), old(v.Contents()), lo, hi, v.size)
  {
    RangeElsewhere(v.Contents(), lo, hi);
    v.ptr[i] := AndNotWord(v.ptr[i], mask);
  }

  /** A range that goes beyond one word. */
  method SetAcross(v: BitVec, lo: nat, hi: nat)
    requires v.Valid() && lo < hi <= 64 * v.size && lo / 64 < (hi - 1) / 64
    modifies v.ptr
    ensures RangeAdded(v.Contents(), old(v.Contents()), lo, hi, v.size)
  {
    ghost var ws := v.Contents();
    RangeElsewhere(ws, lo, hi);
    var i := lo / 64;
    RangeReachesUp(i, lo, hi);
    v.ptr[i] := OrWord(v.ptr[i], ShlWord(Ones(64), lo % 64));
    i := i + 1;
    while i < hi / 64
      invariant lo / 64 < i <= hi / 64 && RangeAdded(v.Contents(), ws, lo, hi, i)
    {
      RangeFromBelow(i, lo, hi);
      AllOnes(ws[i]);
      v.ptr[i] := Base - 1;
      i := i + 1;
    }
    if i < v.size {
      RangeFromBelow(i, lo, hi);
      v.ptr[i] := OrWord(v.ptr[i], Ones(hi % 64));
    }
  }

  /** `clrrange`; bits beyond the last word are none. */
  method ClrRange(v: BitVec, idx: nat, sz: nat)
    requires v.Valid()
    modifies v.ptr
    ensures v.Number() == AndNot(old(v.Number()), Section(idx, idx + sz))
  {
    if sz == 0 {
      EmptySection(v.Number(), idx);
      return;
    }
    ghost var ws := v.Contents();
    var len := if v.size < sz / 64 then v.size * 64 else sz;
    if idx < v.size * 64 {
      ClrWords(v, idx, len, sz);
    } else {
      RangeElsewhere(ws, idx, idx + sz);
    }
    ValueOfTaken(v.Contents(), ws, idx, idx + sz);
  }

  method ClrWords(v: BitVec, idx: nat, len: nat, ghost sz: nat)
    requires v.Valid() && idx < 64 * v.size && 0 < len <= sz && (len == sz || len >= 64 * v.size)
    modifies v.ptr
    ensures RangeTaken(v.Contents(), old(v.Contents()), idx, idx + sz, v.size)
  {
    if v.size == 1 {
      var mask := if idx + len < 64 then ShlWord(Ones(len), idx) else ShlWord(Ones(64), idx);
      if idx + len < 64 { RangeInWord(0, idx, len); } else { RangeReachesUp(0, idx, idx + sz); }
      ClrWithin(v, 0, mask, idx, idx + sz);
    } else if idx / 64 == (idx + len - 1) / 64 {
      var i := idx / 64;
      RangeInWord(i, idx, len);
      ClrWithin(v, i, ShlWord(Ones(len), idx % 64), idx, idx + sz);
    } else {
      ClrAcross(v, idx, idx + len, idx + sz);
    }
  }

  /** Up to `end`, which is that of the range or beyond the last word. */
  method ClrAcross(v: BitVec, lo: nat, end: nat, ghost hi: nat)
    requires v.Valid() && lo < 64 * v.size && lo / 64 < (end - 1) / 64 && end <= hi && (end == hi || end >= 64 * v.size)
    modifies v.ptr
    ensures RangeTaken(v.Contents(), old(v.Contents()), lo, hi, v.size)
  {
    ghost var ws := v.Contents();
    RangeElsewhere(ws, lo, hi);
    var i := lo / 64;
    RangeReachesUp(i, lo, hi);
    v.ptr[i] := AndNotWord(v.ptr[i], ShlWord(Ones(64), lo % 64));
    i := i + 1;
    while i < end / 64 && i < v.size
      invariant lo / 64 < i <= v.size && i <= end / 64 && RangeTaken(v.Contents(), ws, lo, hi, i)
    {
      RangeFromBelow(i, lo, hi);
      AllOnes(ws[i]);
      v.ptr[i] := 0;
      i := i + 1;
    }
    if i < v.size {
      RangeFromBelow(i, lo, hi);
      v.ptr[i] := AndNotWord(v.ptr[i], Ones(end % 64));
    }
  }

  // ---------------------------------------------------------------- rotation

  method Copy(v: BitVec) returns (r: BitVec)
    requires v.Valid()
    ensures fresh(r) && r.Valid() && fresh(r.ptr) && r.size == v.size && r.Contents() == v.Contents()
  {
    r := new BitVec();
    var words := v.Contents();
    r.ptr := new Word[v.size](i requires 0 <= i < |words| => words[i]);
    r.size := v.size;
    assert r.Contents() == words;
  }

  lemma SectionBits(ws: seq<Word>, v: nat, lo: nat, hi: nat)
    requires lo <= hi && Value(ws) == Both(v, Section(lo, hi))
    ensures FewerThan(ws, hi)
  {
    forall n: nat | GetBit(ws, n) ensures n < hi {
      BitOfValue(ws, n);
      BitOfAnd(v, Section(lo, hi), n);
      BitOfSection(lo, hi, n);
    }
  }

  /** The bits of a section alone, and the section itself. */
  method MaskedSection(v: BitVec, start: nat, end: nat) returns (section: BitVec, mask: BitVec)
    requires v.Valid() && start < end < Limit
    ensures fresh(section) && fresh(section.ptr) && section.Valid() && section.size == v.size
    ensures fresh(mask) && fresh(mask.ptr) && mask.Valid() && mask != section && mask.ptr != section.ptr
    ensures section.Number() == Both(v.Number(), Section(start, end)) && mask.Number() == Section(start, end)
    ensures FewerThan(section.Contents(), end)
  {
    mask := new BitVec();
    SetRange(mask, start, end - start);
    section := Copy(v);
    var _ := AndWith(section, mask);
    SectionBits(section.Contents(), v.Number(), start, end);
  }

  /** Both parts of a rotated section, shifted into place. */
  method ShiftBoth(section: BitVec, down: nat, up: nat, end: nat) returns (r: BitVec)
    requires section.Valid() && 2 * section.size < Limit && FewerThan(section.Contents(), end) && end < Limit && up <= end
    modifies section, section.ptr
    ensures fresh(r) && fresh(r.ptr) && r.Valid() && r.size < Limit
    ensures r.Number() == Or(Shr(old(section.Number()), down), Shl(old(section.Number()), up))
  {
    r := Copy(section);
    r.ShiftRight(down);
    section.ShiftLeft(up, end);
    var _ := OrWith(r, section);
  }

  /** `rotate_right_helper`. */
  method RotatedSection(v: BitVec, start: nat, pivot: nat, end: nat) returns (r: BitVec, mask: BitVec)
    requires v.Valid() && start <= pivot < end < Limit && 2 * v.size < Limit
    ensures fresh(r) && fresh(r.ptr) && r.Valid() && fresh(mask) && fresh(mask.ptr) && mask.Valid()
    ensures r != mask && r.ptr != mask.ptr && r.size < Limit
    ensures r.Number() == Rotated(v.Number(), start, pivot, end) && mask.Number() == Section(start, end)
  {
    var section;
    section, mask := MaskedSection(v, start, end);
    var down := pivot - start;
    var up := end - start - down;
    r := ShiftBoth(section, down, up, end);
    var _ := AndWith(r, mask);
  }

  /** `rotate_right`. */
  method RotateRightInPlace(v: BitVec, start: nat, pivot: nat, end: nat)
    requires v.Valid() && start <= pivot < end < Limit && 2 * v.size < Limit
    modifies v, v.ptr
    ensures v.Valid() && (v.ptr == old(v.ptr) || fresh(v.ptr))
    ensures v.Number() == RotateRight(old(v.Number()), start, pivot, end)
  {
    var rotated, _ := RotatedSection(v, start, pivot, end);
    ClrRange(v, start, end - start);
    var _ := OrWith(v, rotated);
  }

  /** `rotate_right_copy`. */
  method RotateRightToCopy(v: BitVec, start: nat, pivot: nat, end: nat) returns (r: BitVec)
    requires v.Valid() && start <= pivot < end < Limit && 2 * v.size < Limit
    ensures fresh(r) && r.Valid() && r.Number() == RotateRightCopy(v.Number(), start, pivot, end)
  {
    var mask;
    r, mask := RotatedSection(v, start, pivot, end);
    var rest := Copy(v);
    var _ := Without(rest, mask);
    var _ := OrWith(r, rest);
  }
}
