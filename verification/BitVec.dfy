/** `bitvec`: a growing set of small numbers, kept in words that are changed in place. */
module BitVecs {
  import opened Wrappers
  import opened BigInt
  import opened Bits
  import opened Words
  import opened HexText

  /** No vector needs this many words: the rounding in `expand` looks at 32 bits only. */
  const Limit: nat := 0x8_0000_0000

  // ---------------------------------------------------------------- rounding up

  /** The ones below `h + 1`. */
  function OnesUpTo(h: nat): nat {
    Pow2(h + 1) - 1
  }

  /** What `expand` makes of a number of words. */
  function RoundUp(n: nat): nat {
    if n < 8 then n else AndNot(n + OnesUpTo(Highest(n / 8)), OnesUpTo(Highest(n / 8)))
  }

  lemma {:induction false} AndNotOnes(x: nat, k: nat)
    ensures AndNot(x, Pow2(k) - 1) == Cleared(x, k)
    decreases k
  {
    if k == 0 {
      AndNotNothing(x);
    } else {
      assert (Pow2(k) - 1) % 2 == 1 && (Pow2(k) - 1) / 2 == Pow2(k - 1) - 1;
      if x > 0 { AndNotOnes(x / 2, k - 1); } else { ClearedZero(k); }
    }
  }

  lemma {:induction false} AndNotNothing(x: nat)
    ensures AndNot(x, 0) == x
  {
    if x > 0 { AndNotNothing(x / 2); }
  }

  lemma {:induction false} ClearedZero(k: nat)
    ensures Cleared(0, k) == 0
  {
    if k > 0 { ClearedZero(k - 1); }
  }

  lemma {:induction false} ClearedBounds(x: nat, k: nat)
    ensures x < Cleared(x, k) + Pow2(k) && Cleared(x, k) <= x
  {
    if k > 0 { ClearedBounds(x / 2, k - 1); }
  }

  lemma OnesAreFew(n: nat)
    requires n >= 8
    ensures 4 * OnesUpTo(Highest(n / 8)) < n
  {
    HighestIsHighest(n / 8);
    assert Pow2(Highest(n / 8) + 1) == 2 * Pow2(Highest(n / 8));
  }

  lemma ClearsOnes(n: nat, h: nat)
    ensures n <= AndNot(n + OnesUpTo(h), OnesUpTo(h)) <= n + OnesUpTo(h)
  {
    AndNotOnes(n + OnesUpTo(h), h + 1);
    ClearedBounds(n + OnesUpTo(h), h + 1);
  }

  /** Rounding never shrinks, and adds less than a quarter. */
  lemma RoundUpBounds(n: nat)
    ensures n <= RoundUp(n) && 4 * (RoundUp(n) - n) <= n
    ensures n < 8 ==> RoundUp(n) == n
  {
    if n >= 8 {
      OnesAreFew(n);
      ClearsOnes(n, Highest(n / 8));
    }
  }

  /** The highest bit is `h`, and so are the `w` bits up to it set. */
  ghost predicate Smeared(x: nat, h: nat, w: nat) {
    && (forall j: nat | Bit(x, j) :: j <= h)
    && (forall j: nat | j <= h < j + w :: Bit(x, j))
  }

  lemma SmearTwice(x: nat, h: nat, w: nat)
    requires Smeared(x, h, w)
    ensures Smeared(Or(x, Shr(x, w)), h, 2 * w)
  {
    var y := Or(x, Shr(x, w));
    forall j: nat | Bit(y, j) ensures j <= h {
      BitOfOr(x, Shr(x, w), j);
      BitOfShr(x, w, j);
      assert Bit(x, j) || Bit(x, w + j);
    }
    forall j: nat | j <= h < j + 2 * w ensures Bit(y, j) {
      BitOfOr(x, Shr(x, w), j);
      BitOfShr(x, w, j);
      assert h >= j + w ==> Bit(x, w + j);
    }
  }

  lemma {:induction false} BitOfOnes(k: nat, j: nat)
    ensures Bit(Pow2(k) - 1, j) == (j < k)
    decreases k
  {
    if k == 0 {
      BitOfZero(j);
    } else {
      if j > 0 { BitOfOnes(k - 1, j - 1); }
    }
  }

  lemma SmearedIsOnes(x: nat, h: nat, w: nat)
    requires Smeared(x, h, w) && h < w
    ensures x == OnesUpTo(h)
  {
    forall j: nat ensures Bit(x, j) == Bit(OnesUpTo(h), j) {
      BitOfOnes(h + 1, j);
      if Bit(x, j) { assert j <= h; }
    }
    SameBitsSameNumber(x, OnesUpTo(h));
  }

  lemma {:induction false} HighestBound(m: nat, n: nat)
    requires 0 < m < Pow2(n)
    ensures Highest(m) < n
  {
    if m > 1 { HighestBound(m / 2, n - 1); }
  }

  lemma Pow2Of32()
    ensures Pow2(32) == 0x1_0000_0000
  {
    assert Pow2(8) == 256;
    Pow2Sum(8, 8);
    Pow2Sum(16, 16);
  }

  /** `m |= m >> 1` and so on. */
  method Smear(m: nat) returns (r: nat)
    requires 0 < m < 0x1_0000_0000
    ensures r == OnesUpTo(Highest(m))
  {
    ghost var h := Highest(m);
    HighestIsHighest(m);
    assert Smeared(m, h, 1);
    r := m;
    var shift := 1;
    while shift <= 16
      invariant shift in {1, 2, 4, 8, 16, 32} && Smeared(r, h, shift)
      decreases 32 - shift
    {
      SmearTwice(r, h, shift);
      r := Or(r, Shr(r, shift));
      shift := 2 * shift;
    }
    Pow2Of32();
    HighestBound(m, 32);
    SmearedIsOnes(r, h, 32);
  }

  // ---------------------------------------------------------------- finding bits

  /** The lowest bit from `start` on, or -1. */
  ghost predicate IsNext(ws: seq<Word>, start: nat, r: int) {
    && (r < 0 ==> r == -1 && forall n: nat | start <= n :: !GetBit(ws, n))
    && (r >= 0 ==> r >= start && GetBit(ws, r) && forall n: nat | start <= n < r :: !GetBit(ws, n))
  }

  /** The highest bit below `end`, or -1. */
  ghost predicate IsPrevious(ws: seq<Word>, end: nat, r: int) {
    && (r < 0 ==> r == -1 && forall n: nat | n < end :: !GetBit(ws, n))
    && (r >= 0 ==> r < end && GetBit(ws, r) && forall n: nat | r < n < end :: !GetBit(ws, n))
  }

  lemma BitsAfter(ws: seq<Word>, idx: nat)
    requires idx / 64 < |ws|
    ensures var w := ShrWord(ws[idx / 64], idx % 64);
            if w == 0 then forall n: nat | idx <= n < 64 * (idx / 64 + 1) :: !GetBit(ws, n)
            else
              var z := TrailingZeros(w);
              idx % 64 + z < 64 && GetBit(ws, idx + z) && forall n: nat | idx <= n < idx + z :: !GetBit(ws, n)
  {
    var i, s := idx / 64, idx % 64;
    var w := ShrWord(ws[i], s);
    if w == 0 {
      forall n: nat | idx <= n < 64 * (i + 1) ensures !GetBit(ws, n) {
        BitFrom(ws, i, s, n);
        BitOfZero(n - idx);
      }
    } else {
      var z := TrailingZeros(w);
      TrailingZerosIsLowest(w);
      BitOfShr(ws[i], s, z);
      if s + z >= 64 { NoBit(ws[i], s + z); }
      forall n: nat | idx <= n < idx + z ensures !GetBit(ws, n) {
        BitFrom(ws, i, s, n);
      }
      BitFrom(ws, i, s, idx + z);
    }
  }

  lemma BitFrom(ws: seq<Word>, i: nat, s: nat, n: nat)
    requires i < |ws| && s < 64 && 64 * i + s <= n < 64 * (i + 1)
    ensures GetBit(ws, n) == Bit(ShrWord(ws[i], s), n - (64 * i + s))
  {
    Position(n, i, n - 64 * i);
    BitOfShr(ws[i], s, n - (64 * i + s));
  }

  lemma BitUpTo(ws: seq<Word>, i: nat, s: nat, n: nat)
    requires i < |ws| && s < 64 && 64 * i <= n <= 64 * i + s
    ensures GetBit(ws, n) == Bit(ShlWord(ws[i], 63 - s), n - 64 * i + (63 - s))
  {
    Position(n, i, n - 64 * i);
    BitOfShlWord(ws[i], 63 - s, n - 64 * i + (63 - s));
  }

  lemma BitsBefore(ws: seq<Word>, idx: nat)
    requires idx / 64 < |ws|
    ensures var w := ShlWord(ws[idx / 64], 63 - idx % 64);
            if w == 0 then forall n: nat | 64 * (idx / 64) <= n <= idx :: !GetBit(ws, n)
            else
              var z := 63 - Highest(w);
              0 <= z <= idx % 64 && GetBit(ws, idx - z) && forall n: nat | idx - z < n <= idx :: !GetBit(ws, n)
  {
    var i, s := idx / 64, idx % 64;
    var w := ShlWord(ws[i], 63 - s);
    if w == 0 {
      forall n: nat | 64 * i <= n <= idx ensures !GetBit(ws, n) {
        BitUpTo(ws, i, s, n);
        BitOfZero(n - 64 * i + (63 - s));
      }
    } else {
      var h := Highest(w);
      HighestIsHighest(w);
      if h >= 64 { NoBit(w, h); }
      BitOfShlWord(ws[i], 63 - s, h);
      forall n: nat | idx - (63 - h) < n <= idx ensures !GetBit(ws, n) {
        BitUpTo(ws, i, s, n);
      }
      BitUpTo(ws, i, s, idx - (63 - h));
    }
  }

  /** `~0 << s`, cut down to the bits of a word. */
  function MaskedFrom(w: Word, s: nat): nat {
    BitOfAnd(ShlWord(Base - 1, s), w, 0);
    And(ShlWord(Base - 1, s), w)
  }

  lemma BitOfMaskedFrom(w: Word, s: nat, j: nat)
    ensures Bit(MaskedFrom(w, s), j) == (j >= s && Bit(w, j))
  {
    BaseIsPow2();
    BitOfAnd(ShlWord(Base - 1, s), w, j);
    BitOfShlWord(Base - 1, s, j);
    if j >= s { BitOfOnes(64, j - s); }
    if j >= 64 { NoBit(w, j); }
  }

  lemma MaskedBits(ws: seq<Word>, i: nat, s: nat)
    requires i < |ws| && s < 64
    ensures var val := MaskedFrom(ws[i], s);
            if val == 0 then forall n: nat | 64 * i + s <= n < 64 * (i + 1) :: !GetBit(ws, n)
            else IsNext(ws, 64 * i + s, 64 * i + TrailingZeros(val))
  {
    var val := MaskedFrom(ws[i], s);
    if val == 0 {
      forall n: nat | 64 * i + s <= n < 64 * (i + 1) ensures !GetBit(ws, n) {
        BitOfZero(n - 64 * i);
        MaskedBit(ws, i, s, n - 64 * i);
      }
    } else {
      var z := TrailingZeros(val);
      LowestMasked(ws[i], s);
      MaskedBit(ws, i, s, z);
      forall n: nat | 64 * i + s <= n < 64 * i + z ensures !GetBit(ws, n) {
        MaskedBit(ws, i, s, n - 64 * i);
      }
    }
  }

  lemma MaskedBit(ws: seq<Word>, i: nat, s: nat, j: nat)
    requires i < |ws| && s <= j < 64
    ensures GetBit(ws, 64 * i + j) == Bit(MaskedFrom(ws[i], s), j)
  {
    InWord(ws, i, j);
    BitOfMaskedFrom(ws[i], s, j);
  }

  lemma LowestMasked(w: Word, s: nat)
    requires MaskedFrom(w, s) != 0
    ensures var val := MaskedFrom(w, s);
            && s <= TrailingZeros(val) < 64 && Bit(val, TrailingZeros(val))
            && forall j: nat | j < TrailingZeros(val) :: !Bit(val, j)
  {
    var z := TrailingZeros(MaskedFrom(w, s));
    TrailingZerosIsLowest(MaskedFrom(w, s));
    BitOfMaskedFrom(w, s, z);
    if z >= 64 { NoBit(w, z); }
  }

  lemma NoBitsOnTop(ws: seq<Word>, n: nat)
    requires 64 * |ws| <= n
    ensures !GetBit(ws, n)
  {
  }

  class BitVec {
    var size: nat
    var ptr: array<Word>

    ghost predicate Valid()
      reads this
    {
      0 < size <= ptr.Length
    }

    function Contents(): (ws: seq<Word>)
      requires 0 < size <= ptr.Length
      reads this, ptr
      ensures |ws| == size
    {
      ptr[..size]
    }

    ghost function Number(): nat
      requires Valid()
      reads this, ptr
    {
      Value(Contents())
    }

    constructor ()
      ensures Valid() && fresh(ptr) && Number() == 0 && size == 1
    {
      size := 1;
      ptr := new Word[1](_ => 0);
      new;
      ZerosOnTop([], 1);
      assert ptr[..1] == [] + Zeros(1);
    }

    method Rounded(needsize: nat) returns (newsize: nat)
      requires needsize < Limit
      ensures newsize == RoundUp(needsize)
    {
      if needsize / 8 == 0 { return needsize; }
      var m := Smear(needsize / 8);
      newsize := AndNot(needsize + m, m);
    }

    /** The words move to a bigger array. */
    method Expand(needsize: nat)
      requires Valid() && size < needsize < Limit
      modifies this
      ensures Valid() && fresh(ptr) && size == RoundUp(needsize) && size >= needsize
      ensures Contents() == old(Contents()) + Zeros(size - old(size)) && Number() == old(Number())
    {
      var newsize := Rounded(needsize);
      RoundUpBounds(needsize);
      ZerosOnTop(Contents(), newsize - size);
      var words := Contents() + Zeros(newsize - size);
      ptr := new Word[newsize](i requires 0 <= i < |words| => words[i]);
      size := newsize;
      assert Contents() == words;
    }

    /** `ffs`. */
    method Ffs(start: nat) returns (r: int)
      requires Valid()
      ensures IsNext(Contents(), start, r)
    {
      var idx: nat, shift: nat := start / 64, start % 64;
      ghost var ws := Contents();
      while idx < size && MaskedFrom(ptr[idx], shift) == 0
        invariant shift < 64 && start <= 64 * idx + shift
        invariant forall n: nat | start <= n < 64 * idx + shift :: !GetBit(ws, n)
      {
        MaskedBits(ws, idx, shift);
        idx := idx + 1;
        shift := 0;
      }
      if idx >= size {
        forall n: nat | start <= n ensures !GetBit(ws, n) {
          if n >= 64 * idx + shift { NoBitsOnTop(ws, n); }
        }
        return -1;
      }
      MaskedBits(ws, idx, shift);
      r := 64 * idx + TrailingZeros(MaskedFrom(ptr[idx], shift));
    }

    /** `operator++` of a reference to bit `i`. */
    method Following(i: int) returns (r: int)
      requires Valid() && i >= -1
      ensures IsNext(Contents(), i + 1, r)
    {
      ghost var ws := Contents();
      var idx := i + 1;
      while idx < size * 64
        invariant idx >= i + 1
        invariant forall n: nat | i + 1 <= n < idx :: !GetBit(ws, n)
        decreases size * 64 - idx
      {
        var w := ShrWord(ptr[idx / 64], idx % 64);
        BitsAfter(ws, idx);
        if w != 0 { return idx + TrailingZeros(w); }
        idx := idx / 64 * 64 + 63;
        idx := idx + 1;
      }
      forall n: nat | i + 1 <= n ensures !GetBit(ws, n) {
        if n >= idx { NoBitsOnTop(ws, n); }
      }
      r := -1;
    }

    /** `operator--` of a reference to bit `i`, or to the end. */
    method Preceding(i: int) returns (r: int)
      requires Valid()
      ensures IsPrevious(Contents(), if i < 0 then 64 * size else i, r)
    {
      var idx: int := if i < 0 then 64 * size else i;
      r := Before(idx);
    }

    method Before(i: nat) returns (r: int)
      requires Valid()
      ensures IsPrevious(Contents(), i, r)
    {
      ghost var ws := Contents();
      var idx: int := i - 1;
      while idx >= 0
        invariant -1 <= idx < i
        invariant forall n: nat | idx < n < i :: !GetBit(ws, n)
      {
        var w := if idx / 64 < size then ShlWord(ptr[idx / 64], 63 - idx % 64) else 0;
        if idx / 64 < size {
          BitsBefore(ws, idx);
        } else {
          forall n: nat | 64 * (idx / 64) <= n ensures !GetBit(ws, n) { NoBitsOnTop(ws, n); }
        }
        if w != 0 { return idx - (63 - Highest(w)); }
        idx := idx / 64 * 64;
        idx := idx - 1;
      }
      r := -1;
    }

    method Max() returns (r: int)
      requires Valid()
      ensures IsPrevious(Contents(), 64 * size, r)
    {
      r := Preceding(64 * size);
    }

    /** Makes room for every bit that is shifted; `bits` bounds the bits there are. */
    method MakeRoom(count: nat, ghost bits: nat)
      requires Valid() && FewerThan(Contents(), bits) && bits + count + 64 < 64 * Limit
      modifies this
      ensures Valid() && Number() == old(Number()) && HasRoom(Contents(), count)
      ensures ptr == old(ptr) || fresh(ptr)
      ensures size == old(size) || 32 * size <= bits + count + 64
    {
      ghost var ws := Contents();
      var max := Max();
      var needsize := (max + count + 64) / 64;
      if needsize > size {
        RoundUpBounds(needsize);
        Expand(needsize);
        StillRoom(ws, size - |ws|, count);
      }
    }

    /** `operator<<=`. */
    method ShiftLeft(count: nat, ghost bits: nat)
      requires Valid() && FewerThan(Contents(), bits) && bits + count + 64 < 64 * Limit
      modifies this, ptr
      ensures Valid() && (ptr == old(ptr) || fresh(ptr))
      ensures size == old(size) || 32 * size <= bits + count + 64
      ensures Number() == Shl(old(Number()), count)
    {
      MakeRoom(count, bits);
      ghost var ws := Contents();
      ShiftedLeftValue(ws, count);
      if size == 1 {
        SingleLeft(ws, count);
        ptr[0] := ShlWord(ptr[0], count);
        assert Contents() == ShiftedLeft(ws, count);
      } else {
        ShiftWordsLeft(count);
      }
    }

    method ShiftWordsLeft(count: nat)
      requires Valid()
      modifies ptr
      ensures Contents() == ShiftedLeft(old(Contents()), count)
    {
      ghost var ws := Contents();
      var off, c := count / 64, count % 64;
      var i := size - 1;
      while i >= 0
        invariant -1 <= i < size
        invariant forall k | 0 <= k <= i :: ptr[k] == ws[k]
        invariant forall k | i < k < size :: ptr[k] == LeftAt(ws, off, c, k)
        decreases i
      {
        var w := WordLeft(ws, off, c, i);
        ptr[i] := w;
        i := i - 1;
      }
    }

    method WordLeft(ghost ws: seq<Word>, off: nat, c: nat, i: nat) returns (w: Word)
      requires Valid() && |ws| == size && i < size && c < 64
      requires forall k | 0 <= k <= i :: ptr[k] == ws[k]
      ensures w == LeftAt(ws, off, c, i)
    {
      if i < off { return 0; }
      w := ShlWord(ptr[i - off], c);
      OrNothing(w);
      if c > 0 && i > off { w := OrWord(w, ShrWord(ptr[i - off - 1], 64 - c)); }
    }

    /** `operator>>=`, which drops words of zero from the top. */
    method ShiftRight(count: nat)
      requires Valid()
      modifies this`size, ptr
      ensures Valid() && size <= old(size) && (size > 1 ==> ptr[size - 1] != 0 || old(size) == 1)
      ensures Number() == Shr(old(Number()), count)
    {
      ghost var ws := Contents();
      ShiftedRightValue(ws, count);
      if size == 1 {
        SingleRight(ws, count);
        ptr[0] := if count >= 64 then 0 else ShrWord(ptr[0], count);
        assert Contents() == ShiftedRight(ws, count);
        return;
      }
      ShiftWordsRight(count);
      while size > 1 && ptr[size - 1] == 0
        invariant 0 < size <= old(size) && ptr == old(ptr)
        invariant Value(ptr[..size]) == Value(ShiftedRight(ws, count))
      {
        ZerosOnTop(ptr[..size - 1], 1);
        assert ptr[..size] == ptr[..size - 1] + Zeros(1);
        size := size - 1;
      }
    }

    method ShiftWordsRight(count: nat)
      requires Valid()
      modifies ptr
      ensures Contents() == ShiftedRight(old(Contents()), count)
    {
      ghost var ws := Contents();
      var off, c := count / 64, count % 64;
      for i := 0 to size
        invariant forall k | 0 <= k < i :: ptr[k] == RightAt(ws, off, c, k)
        invariant forall k | i <= k < size :: ptr[k] == ws[k]
      {
        var w := WordRight(ws, off, c, i);
        ptr[i] := w;
      }
    }

    method WordRight(ghost ws: seq<Word>, off: nat, c: nat, i: nat) returns (w: Word)
      requires Valid() && |ws| == size && i < size && c < 64
      requires forall k | i <= k < size :: ptr[k] == ws[k]
      ensures w == RightAt(ws, off, c, i)
    {
      if i + off >= size { return 0; }
      w := ShrWord(ptr[i + off], c);
      OrNothing(w);
      if c > 0 && i + off + 1 < size { w := OrWord(w, ShlWord(ptr[i + off + 1], 64 - c)); }
    }

    method Clear()
      requires Valid()
      modifies ptr
      ensures Contents() == Zeros(size) && Number() == 0
    {
      for i := 0 to size
        invariant forall k | 0 <= k < i :: ptr[k] == 0
      {
        ptr[i] := 0;
      }
      ZerosOnTop([], size);
      assert Contents() == [] + Zeros(size);
    }

    /** `operator|=` with a digit, where there is nothing below it. */
    method AddDigit(d: nat)
      requires Valid() && d < 16 && Number() % 16 == 0
      modifies ptr
      ensures Number() == old(Number()) + d
    {
      ghost var ws := Contents();
      OrDigit(ws, d);
      ptr[0] := OrWord(ptr[0], d);
      assert Contents() == ws[0 := OrWord(ws[0], d)];
    }

    /** One more digit. */
    method Accept(d: nat, ghost i: nat)
      requires Valid() && d < 16 && i < Limit && Number() < Pow2(4 * i)
      modifies this, ptr
      ensures Valid() && (ptr == old(ptr) || fresh(ptr))
      ensures Number() == 16 * old(Number()) + d && Number() < Pow2(4 * (i + 1))
    {
      FourMore(i);
      FewBits(Contents(), 4 * i);
      ShiftLeft(4, 4 * i);
      AddDigit(d);
    }

    /** `operator>>` from a string: false at something that is no hexadecimal digit. */
    method Parse(s: string) returns (ok: bool)
      requires Valid() && |s| < Limit
      modifies this, ptr
      ensures Valid() && (ptr == old(ptr) || fresh(ptr))
      ensures ok == IsHex(s)
      ensures ok ==> Number() == Read(0, s)
    {
      Clear();
      assert s[..0] == "";
      for i := 0 to |s|
        invariant Valid() && (ptr == old(ptr) || fresh(ptr))
        invariant IsHex(s[..i]) && Number() == Read(0, s[..i]) && Number() < Pow2(4 * i)
      {
        if DigitValue(s[i]).None? { return false; }
        ReadAppend(0, s[..i], [s[i]]);
        assert s[..i] + [s[i]] == s[..i + 1];
        Accept(DigitValue(s[i]).value, i);
      }
      assert s[..|s|] == s;
      ok := true;
    }

    /** `operator<<` to a stream. */
    method Print() returns (s: string)
      requires Valid()
      ensures s == Text(Contents()) && IsHex(s) && Read(0, s) == Number()
    {
      ghost var ws := Contents();
      TextRoundTrip(ws);
      if size == 1 {
        assert TextFrom(ws, 0, true) == "0" == Hex(0) && TextFrom(ws, 0, false) == "";
        return Hex(ptr[0]);
      }
      var first := true;
      s := "";
      var i := size - 1;
      while i >= 0
        invariant -1 <= i < size
        invariant first ==> s == ""
        invariant s + TextFrom(ws, i + 1, first) == Text(ws)
      {
        Grouped(s, if first then Hex(ptr[i]) else Padded(ptr[i], 16), TextFrom(ws, i, false));
        if first {
          if ptr[i] != 0 {
            s := s + Hex(ptr[i]);
            first := false;
          }
        } else {
          s := s + Padded(ptr[i], 16);
        }
        i := i - 1;
      }
      if first { s := s + "0"; }
    }
  }

  /** Printing any vector and reading that into any other makes them equal. */
  method PrintAndParse(from: BitVec, to: BitVec) returns (ok: bool)
    requires from.Valid() && to.Valid() && from != to && from.ptr != to.ptr && |Text(from.Contents())| < Limit
    modifies to, to.ptr
    ensures ok && from.Valid() && to.Valid() && to.Number() == from.Number() == old(from.Number())
  {
    var s := from.Print();
    ok := to.Parse(s);
  }

  ghost predicate FewerThan(ws: seq<Word>, bits: nat) {
    forall n: nat | GetBit(ws, n) :: n < bits
  }

  lemma StillRoom(ws: seq<Word>, n: nat, count: nat)
    requires forall m: nat | GetBit(ws, m) :: m + count < 64 * (|ws| + n)
    ensures HasRoom(ws + Zeros(n), count)
  {
    forall m: nat | GetBit(ws + Zeros(n), m) ensures GetBit(ws, m) {
      BitOfZero(m % 64);
    }
  }

  lemma OrNothing(w: Word)
    ensures OrWord(w, 0) == w
  {
    OrZero(w);
  }

  lemma SingleLeft(ws: seq<Word>, count: nat)
    requires |ws| == 1
    ensures ShiftedLeft(ws, count) == [ShlWord(ws[0], count)]
  {
    if count < 64 {
      OrNothing(ShlWord(ws[0], count));
    } else {
      forall j: nat ensures Bit(ShlWord(ws[0], count), j) == Bit(0, j) {
        BitOfShlWord(ws[0], count, j);
        BitOfZero(j);
      }
      SameBitsSameNumber(ShlWord(ws[0], count), 0);
    }
  }

  lemma SingleRight(ws: seq<Word>, count: nat)
    requires |ws| == 1
    ensures ShiftedRight(ws, count) == [if count >= 64 then 0 else ShrWord(ws[0], count)]
  {
    if count < 64 { OrNothing(ShrWord(ws[0], count)); }
  }

  lemma OrZero(w: nat)
    ensures Or(w, 0) == w
  {
    forall j: nat ensures Bit(Or(w, 0), j) == Bit(w, j) {
      BitOfOr(w, 0, j);
      BitOfZero(j);
    }
    SameBitsSameNumber(Or(w, 0), w);
  }

  /** Or with something that only has lower bits is addition. */
  lemma OrBelow(x: nat, k: nat, d: nat)
    requires d < Pow2(k)
    ensures Or(Shl(x, k), d) == Shl(x, k) + d
  {
    forall j: nat ensures Bit(Or(Shl(x, k), d), j) == Bit(Shl(x, k) + d, j) {
      BitOfOr(Shl(x, k), d, j);
      BitOfShl(x, k, j);
      BitOfJoined(x, k, d, j);
      if j >= k { BitAbove(d, k, j); }
    }
    SameBitsSameNumber(Or(Shl(x, k), d), Shl(x, k) + d);
  }

  lemma OrDigit(ws: seq<Word>, d: nat)
    requires |ws| > 0 && d < 16 && Value(ws) % 16 == 0
    ensures d < Base && Value(ws[0 := OrWord(ws[0], d)]) == Value(ws) + d
  {
    var changed := ws[0 := OrWord(ws[0], d)];
    assert changed[1..] == ws[1..];
    LowDigit(Value(ws[1..]), ws[0]);
    assert Pow2(4) == 16;
    OrBelow(ws[0] / 16, 4, d);
  }

  lemma LowDigit(v: nat, w: nat)
    requires (v * Base + w) % 16 == 0
    ensures w == 16 * (w / 16)
  {
    var rest := v * (Base / 16);
    assert v * Base == 16 * rest;
  }

  lemma FourMore(i: nat)
    ensures Pow2(4) == 16 && Pow2(4 * (i + 1)) == 16 * Pow2(4 * i)
  {
    Pow2Sum(4, 4 * i);
  }

  lemma FewBits(ws: seq<Word>, n: nat)
    requires Value(ws) < Pow2(n)
    ensures FewerThan(ws, n)
  {
    forall m: nat | GetBit(ws, m) ensures m < n {
      BitOfValue(ws, m);
      if m >= n { BitAbove(Value(ws), n, m); }
    }
  }
}
