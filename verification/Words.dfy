/** Sequences of 64-bit words as numbers, lowest word first. */
module Words {
  import opened BigInt
  import opened Bits

  const Base: nat := 0x1_0000_0000_0000_0000
  /** `uintptr_t`. */
  type Word = w: nat | w < Base

  lemma BaseIsPow2()
    ensures Pow2(64) == Base
  {
    assert Pow2(8) == 256;
    Pow2Sum(8, 8);
    Pow2Sum(16, 16);
    Pow2Sum(32, 32);
  }

  predicate BitAt(ws: seq<Word>, i: int, j: nat) {
    0 <= i < |ws| && Bit(ws[i], j)
  }

  predicate GetBit(ws: seq<Word>, n: nat) {
    BitAt(ws, n / 64, n % 64)
  }

  function Value(ws: seq<Word>): nat {
    if ws == [] then 0 else Value(ws[1..]) * Base + ws[0]
  }

  lemma {:induction false} BitOfValue(ws: seq<Word>, n: nat)
    ensures Bit(Value(ws), n) == GetBit(ws, n)
    decreases |ws|
  {
    if ws == [] {
      BitOfZero(n);
    } else {
      BaseIsPow2();
      BitOfJoined(Value(ws[1..]), 64, ws[0], n);
      if n >= 64 {
        BitOfValue(ws[1..], n - 64);
        assert (n - 64) / 64 == n / 64 - 1 && (n - 64) % 64 == n % 64;
      }
    }
  }

  /** The value is determined by the bits. */
  lemma SameBitsSameValue(ws: seq<Word>, v: nat)
    requires forall n: nat :: GetBit(ws, n) == Bit(v, n)
    ensures Value(ws) == v
  {
    forall n: nat ensures Bit(Value(ws), n) == Bit(v, n) {
      BitOfValue(ws, n);
    }
    SameBitsSameNumber(Value(ws), v);
  }

  function Zeros(n: nat): seq<Word> {
    seq(n, _ => 0)
  }

  /** Words of zero at the top do not matter. */
  lemma ZerosOnTop(ws: seq<Word>, n: nat)
    ensures Value(ws + Zeros(n)) == Value(ws)
  {
    forall m: nat ensures GetBit(ws + Zeros(n), m) == Bit(Value(ws), m) {
      BitOfValue(ws, m);
      BitOfZero(m % 64);
    }
    SameBitsSameValue(ws + Zeros(n), Value(ws));
  }

  // ---------------------------------------------------------------- operations on words

  lemma IsWord(v: nat)
    requires forall j: nat | j >= 64 :: !Bit(v, j)
    ensures v < Base
  {
    BaseIsPow2();
    BitsBound(v, 64);
  }

  lemma OrFits(a: Word, b: Word)
    ensures Or(a, b) < Base
  {
    forall j: nat | j >= 64 ensures !Bit(Or(a, b), j) {
      BitOfOr(a, b, j);
      NoBit(a, j);
      NoBit(b, j);
    }
    IsWord(Or(a, b));
  }

  function OrWord(a: Word, b: Word): Word {
    OrFits(a, b);
    Or(a, b)
  }

  /** `w << c` and `w >> c`. */
  function ShlWord(w: Word, c: nat): Word {
    BaseIsPow2();
    Low(Shl(w, c), 64)
  }

  function ShrWord(w: Word, c: nat): Word {
    Shr(w, c)
  }

  lemma BitOfShlWord(w: Word, c: nat, j: nat)
    ensures Bit(ShlWord(w, c), j) == (c <= j < 64 && Bit(w, j - c))
  {
    BitOfLow(Shl(w, c), 64, j);
    BitOfShl(w, c, j);
  }

  lemma NoBit(w: Word, j: nat)
    requires j >= 64
    ensures !Bit(w, j)
  {
    BaseIsPow2();
    BitAbove(w, 64, j);
  }

  // ---------------------------------------------------------------- shifting sequences

  /** Word `i` when `ws` is shifted by `off` words and `c` bits. */
  function LeftAt(ws: seq<Word>, off: nat, c: nat, i: nat): Word
    requires i < |ws| && c < 64
  {
    if i < off then 0
    else OrWord(ShlWord(ws[i - off], c), if c > 0 && i > off then ShrWord(ws[i - off - 1], 64 - c) else 0)
  }

  function RightAt(ws: seq<Word>, off: nat, c: nat, i: nat): Word
    requires i < |ws| && c < 64
  {
    if i + off >= |ws| then 0
    else OrWord(ShrWord(ws[i + off], c), if c > 0 && i + off + 1 < |ws| then ShlWord(ws[i + off + 1], 64 - c) else 0)
  }

  function ShiftedLeft(ws: seq<Word>, count: nat): (r: seq<Word>)
    ensures |r| == |ws|
  {
    seq(|ws|, i requires 0 <= i < |ws| => LeftAt(ws, count / 64, count % 64, i))
  }

  function ShiftedRight(ws: seq<Word>, count: nat): (r: seq<Word>)
    ensures |r| == |ws|
  {
    seq(|ws|, i requires 0 <= i < |ws| => RightAt(ws, count / 64, count % 64, i))
  }

  lemma Position(n: nat, i: int, j: nat)
    requires n == 64 * i + j && j < 64
    ensures n / 64 == i && n % 64 == j
  {
  }

  lemma InWord(ws: seq<Word>, i: nat, j: nat)
    requires i < |ws| && j < 64
    ensures GetBit(ws, 64 * i + j) == Bit(ws[i], j)
  {
    Position(64 * i + j, i, j);
  }

  lemma BitOfLeftAt(ws: seq<Word>, off: nat, c: nat, i: nat, j: nat)
    requires i < |ws| && j < 64 && c < 64
    ensures Bit(LeftAt(ws, off, c, i), j) ==
            if j >= c then BitAt(ws, i - off, j - c) else BitAt(ws, i - off - 1, j + 64 - c)
  {
    BitOfZero(j);
    if i >= off {
      var low := if c > 0 && i > off then ShrWord(ws[i - off - 1], 64 - c) else 0;
      BitOfOr(ShlWord(ws[i - off], c), low, j);
      BitOfShlWord(ws[i - off], c, j);
      if c > 0 && i > off {
        BitOfShr(ws[i - off - 1], 64 - c, j);
        if j >= c { NoBit(ws[i - off - 1], j + 64 - c); }
      }
    }
  }

  lemma BitOfRightAt(ws: seq<Word>, off: nat, c: nat, i: nat, j: nat)
    requires i < |ws| && j < 64 && c < 64
    ensures Bit(RightAt(ws, off, c, i), j) ==
            if j + c < 64 then BitAt(ws, i + off, j + c) else BitAt(ws, i + off + 1, j + c - 64)
  {
    BitOfZero(j);
    if i + off < |ws| {
      var high := if c > 0 && i + off + 1 < |ws| then ShlWord(ws[i + off + 1], 64 - c) else 0;
      BitOfOr(ShrWord(ws[i + off], c), high, j);
      BitOfShr(ws[i + off], c, j);
      if j + c >= 64 { NoBit(ws[i + off], j + c); }
      if c > 0 && i + off + 1 < |ws| { BitOfShlWord(ws[i + off + 1], 64 - c, j); }
    }
  }

  lemma BitBelow(ws: seq<Word>, off: nat, c: nat, i: nat, j: nat)
    requires j < 64 && c < 64
    ensures var n, count := 64 * i + j, 64 * off + c;
            (n >= count && GetBit(ws, n - count)) ==
              if j >= c then BitAt(ws, i - off, j - c) else BitAt(ws, i - off - 1, j + 64 - c)
  {
    var n, count := 64 * i + j, 64 * off + c;
    if n >= count {
      if j >= c {
        Position(n - count, i - off, j - c);
      } else {
        Position(n - count, i - off - 1, j + 64 - c);
      }
    }
  }

  lemma Split(n: nat)
    ensures n == 64 * (n / 64) + n % 64
  {
  }

  lemma BitOfShiftedLeft(ws: seq<Word>, count: nat, n: nat)
    requires n < 64 * |ws|
    ensures GetBit(ShiftedLeft(ws, count), n) == (n >= count && GetBit(ws, n - count))
  {
    var off, c, i, j := count / 64, count % 64, n / 64, n % 64;
    Split(n);
    Split(count);
    BitOfLeftAt(ws, off, c, i, j);
    BitBelow(ws, off, c, i, j);
    assert BitAt(ShiftedLeft(ws, count), i, j) == Bit(LeftAt(ws, off, c, i), j);
  }

  lemma BitOfShiftedRight(ws: seq<Word>, count: nat, n: nat)
    ensures GetBit(ShiftedRight(ws, count), n) == GetBit(ws, n + count)
  {
    var off, c, i, j := count / 64, count % 64, n / 64, n % 64;
    Split(n);
    Split(count);
    if i < |ws| {
      BitOfRightAt(ws, off, c, i, j);
      assert BitAt(ShiftedRight(ws, count), i, j) == Bit(RightAt(ws, off, c, i), j);
    }
  }

  /** No bit is shifted out. */
  ghost predicate HasRoom(ws: seq<Word>, count: nat) {
    forall n: nat | GetBit(ws, n) :: n + count < 64 * |ws|
  }

  lemma BitWithRoom(ws: seq<Word>, count: nat, n: nat)
    requires HasRoom(ws, count)
    ensures GetBit(ShiftedLeft(ws, count), n) == Bit(Shl(Value(ws), count), n)
  {
    BitOfShl(Value(ws), count, n);
    if n >= count { BitOfValue(ws, n - count); }
    if n < 64 * |ws| {
      BitOfShiftedLeft(ws, count, n);
    } else {
      assert n >= count && GetBit(ws, n - count) ==> n - count + count < 64 * |ws|;
    }
  }

  /** If there is room for them all, no bit is lost or invented: the value is multiplied by a power
      of two. */
  lemma ShiftedLeftValue(ws: seq<Word>, count: nat)
    requires HasRoom(ws, count)
    ensures Value(ShiftedLeft(ws, count)) == Shl(Value(ws), count)
  {
    forall n: nat ensures GetBit(ShiftedLeft(ws, count), n) == Bit(Shl(Value(ws), count), n) {
      BitWithRoom(ws, count, n);
    }
    SameBitsSameValue(ShiftedLeft(ws, count), Shl(Value(ws), count));
  }

  /** Shifting right divides by a power of two, rounding down. */
  lemma ShiftedRightValue(ws: seq<Word>, count: nat)
    ensures Value(ShiftedRight(ws, count)) == Shr(Value(ws), count)
  {
    forall n: nat ensures GetBit(ShiftedRight(ws, count), n) == Bit(Shr(Value(ws), count), n) {
      BitOfShr(Value(ws), count, n);
      BitOfValue(ws, count + n);
      BitOfShiftedRight(ws, count, n);
    }
    SameBitsSameValue(ShiftedRight(ws, count), Shr(Value(ws), count));
  }
}
