/** Counting the bits of a vector and going through its runs of consecutive bits. */
module BitRuns {
  import opened BigInt
  import opened Bits
  import opened Words
  import opened BitVecs

  // ---------------------------------------------------------------- counting

  /** How many bits there are in `[lo, hi)`. */
  function Count(ws: seq<Word>, lo: nat, hi: nat): nat
    decreases hi - lo
  {
    if lo >= hi then 0 else (if GetBit(ws, lo) then 1 else 0) + Count(ws, lo + 1, hi)
  }

  lemma {:induction false} CountSplits(ws: seq<Word>, lo: nat, mid: nat, hi: nat)
    requires lo <= mid <= hi
    ensures Count(ws, lo, hi) == Count(ws, lo, mid) + Count(ws, mid, hi)
    decreases mid - lo
  {
    if lo < mid { CountSplits(ws, lo + 1, mid, hi); }
  }

  lemma {:induction false} CountBounds(ws: seq<Word>, lo: nat, hi: nat)
    requires lo <= hi
    ensures Count(ws, lo, hi) <= hi - lo
    ensures Count(ws, lo, hi) == hi - lo <==> forall n: nat | lo <= n < hi :: GetBit(ws, n)
    ensures Count(ws, lo, hi) == 0 <==> forall n: nat | lo <= n < hi :: !GetBit(ws, n)
    decreases hi - lo
  {
    if lo < hi { CountBounds(ws, lo + 1, hi); }
  }

  lemma ShrStep(w: Word, j: nat)
    ensures Shr(w, j) % 2 == (if Bit(w, j) then 1 else 0) && Shr(w, j) / 2 == Shr(w, j + 1)
  {
    BitOfShr(w, j, 0);
    forall i: nat ensures Bit(Shr(w, j) / 2, i) == Bit(Shr(w, j + 1), i) {
      BitOfShr(w, j, i + 1);
      BitOfShr(w, j + 1, i);
      assert Bit(Shr(w, j) / 2, i) == Bit(Shr(w, j), i + 1);
    }
    SameBitsSameNumber(Shr(w, j) / 2, Shr(w, j + 1));
  }

  lemma {:induction false} CountInWord(ws: seq<Word>, i: nat, j: nat)
    requires i < |ws| && j <= 64
    ensures Count(ws, 64 * i + j, 64 * (i + 1)) == Popcount(Shr(ws[i], j))
    decreases 64 - j
  {
    if j == 64 {
      forall k: nat ensures Bit(Shr(ws[i], 64), k) == Bit(0, k) {
        BitOfShr(ws[i], 64, k);
        NoBit(ws[i], 64 + k);
        BitOfZero(k);
      }
      SameBitsSameNumber(Shr(ws[i], 64), 0);
    } else {
      InWord(ws, i, j);
      ShrStep(ws[i], j);
      CountInWord(ws, i, j + 1);
    }
  }

  /** `popcount`. */
  method CountBits(v: BitVec) returns (r: nat)
    requires v.Valid()
    ensures r == Count(v.Contents(), 0, 64 * v.size)
  {
    ghost var ws := v.Contents();
    r := 0;
    for i := 0 to v.size
      invariant r == Count(ws, 0, 64 * i)
    {
      r := r + Popcount(v.ptr[i]);
      CountInWord(ws, i, 0);
      CountSplits(ws, 0, 64 * i, 64 * (i + 1));
      assert Shr(ws[i], 0) == ws[i];
    }
  }

  /** The bits are those from `lo` to `hi`. */
  ghost predicate IsInterval(ws: seq<Word>, lo: nat, hi: nat) {
    lo <= hi && forall n: nat :: GetBit(ws, n) <==> lo <= n <= hi
  }

  lemma CountBetween(ws: seq<Word>, min: nat, max: nat)
    requires IsNext(ws, 0, min) && IsPrevious(ws, 64 * |ws|, max) && min <= max
    ensures max - min + 1 == Count(ws, 0, 64 * |ws|) <==> IsInterval(ws, min, max)
  {
    var end := 64 * |ws|;
    CountSplits(ws, 0, min, end);
    CountSplits(ws, min, max + 1, end);
    CountBounds(ws, 0, min);
    CountBounds(ws, min, max + 1);
    CountBounds(ws, max + 1, end);
    forall n: nat | GetBit(ws, n) ensures min <= n <= max {
      if n >= end { NoBitsOnTop(ws, n); }
    }
  }

  /** `is_contiguous`. */
  method IsContiguous(v: BitVec) returns (r: bool)
    requires v.Valid()
    ensures r <==> exists lo: nat, hi: nat :: IsInterval(v.Contents(), lo, hi)
  {
    ghost var ws := v.Contents();
    var empty := IsEmpty(v);
    if empty {
      NoInterval(ws);
      return false;
    }
    var max := v.Max();
    var min := v.Ffs(0);
    var count := CountBits(v);
    r := max - min + 1 == count;
    NotEmpty(ws, min, max);
    CountBetween(ws, min, max);
  }

  ghost predicate NoBits(ws: seq<Word>) {
    forall n: nat :: !GetBit(ws, n)
  }

  lemma NoInterval(ws: seq<Word>)
    requires NoBits(ws)
    ensures forall lo: nat, hi: nat :: !IsInterval(ws, lo, hi)
  {
    forall lo: nat, hi: nat ensures !IsInterval(ws, lo, hi) {
      assert !GetBit(ws, lo);
    }
  }

  lemma NotEmpty(ws: seq<Word>, min: int, max: int)
    requires IsNext(ws, 0, min) && IsPrevious(ws, 64 * |ws|, max)
    requires !NoBits(ws)
    ensures 0 <= min <= max && GetBit(ws, min) && GetBit(ws, max)
    ensures forall lo: nat, hi: nat | IsInterval(ws, lo, hi) :: lo == min && hi == max
  {
    var n: nat :| GetBit(ws, n);
    assert n < 64 * |ws|;
    forall lo: nat, hi: nat | IsInterval(ws, lo, hi) ensures lo == min && hi == max {
      assert GetBit(ws, lo) && GetBit(ws, hi);
      assert lo < 64 * |ws| && hi < 64 * |ws|;
    }
  }

  method IsEmpty(v: BitVec) returns (r: bool)
    requires v.Valid()
    ensures r <==> NoBits(v.Contents())
  {
    ghost var ws := v.Contents();
    for i := 0 to v.size
      invariant forall k | 0 <= k < i :: ws[k] == 0
    {
      if v.ptr[i] != 0 {
        NonZeroHasBit(ws[i]);
        ghost var j: nat :| Bit(ws[i], j);
        if j >= 64 { NoBit(ws[i], j); }
        Position(64 * i + j, i, j);
        assert GetBit(ws, 64 * i + j);
        return false;
      }
    }
    forall n: nat ensures !GetBit(ws, n) { BitOfZero(n % 64); }
    r := true;
  }

  // ---------------------------------------------------------------- runs

  /** A run that cannot be made longer. */
  ghost predicate IsRun(ws: seq<Word>, r: (nat, nat)) {
    && r.0 <= r.1
    && (forall n: nat | r.0 <= n <= r.1 :: GetBit(ws, n))
    && !GetBit(ws, r.1 + 1)
    && (r.0 > 0 ==> !GetBit(ws, r.0 - 1))
  }

  ghost predicate Covered(rs: seq<(nat, nat)>, n: nat) {
    exists i :: 0 <= i < |rs| && rs[i].0 <= n <= rs[i].1
  }

  /** The runs below `end`, in order. */
  ghost predicate RunsBelow(ws: seq<Word>, rs: seq<(nat, nat)>, end: nat) {
    && (forall i | 0 <= i < |rs| :: IsRun(ws, rs[i]) && rs[i].1 < end)
    && (forall i, j | 0 <= i < j < |rs| :: rs[i].1 < rs[j].0)
    && (forall n: nat | n < end && GetBit(ws, n) :: Covered(rs, n))
  }

  ghost predicate IsRuns(ws: seq<Word>, rs: seq<(nat, nat)>) {
    RunsBelow(ws, rs, 64 * |ws|)
  }

  /** Runs ascend and do not touch, and together they are exactly the bits. */
  lemma RunsPartition(ws: seq<Word>, rs: seq<(nat, nat)>)
    requires IsRuns(ws, rs)
    ensures forall i, j | 0 <= i < j < |rs| :: rs[i].0 <= rs[i].1 && rs[i].1 + 1 < rs[j].0
    ensures forall n: nat :: GetBit(ws, n) <==> Covered(rs, n)
  {
    forall i, j | 0 <= i < j < |rs| ensures rs[i].0 <= rs[i].1 && rs[i].1 + 1 < rs[j].0 {
      assert IsRun(ws, rs[i]) && IsRun(ws, rs[j]);
      assert GetBit(ws, rs[j].0) && !GetBit(ws, rs[i].1 + 1);
    }
    forall n: nat ensures GetBit(ws, n) <==> Covered(rs, n) {
      if n >= 64 * |ws| { NoBitsOnTop(ws, n); }
    }
  }

  lemma TwoRunsNoInterval(ws: seq<Word>, r: (nat, nat), q: (nat, nat))
    requires IsRun(ws, r) && IsRun(ws, q) && r.1 < q.0
    ensures forall lo: nat, hi: nat :: !IsInterval(ws, lo, hi)
  {
    assert GetBit(ws, r.1) && GetBit(ws, q.0) && !GetBit(ws, r.1 + 1);
    forall lo: nat, hi: nat ensures !IsInterval(ws, lo, hi) {
    }
  }

  /** There is exactly one run if and only if the bits are contiguous. */
  lemma OneRunIffInterval(ws: seq<Word>, rs: seq<(nat, nat)>)
    requires IsRuns(ws, rs)
    ensures |rs| == 1 <==> exists lo: nat, hi: nat :: IsInterval(ws, lo, hi)
  {
    RunsPartition(ws, rs);
    if |rs| == 0 {
      forall n: nat ensures !GetBit(ws, n) {
        assert GetBit(ws, n) <==> Covered(rs, n);
      }
      NoInterval(ws);
    } else if |rs| == 1 {
      assert IsRun(ws, rs[0]);
      forall n: nat ensures GetBit(ws, n) <==> rs[0].0 <= n <= rs[0].1 {
        assert Covered(rs, n) <==> rs[0].0 <= n <= rs[0].1;
      }
      assert IsInterval(ws, rs[0].0, rs[0].1);
    } else {
      TwoRunsNoInterval(ws, rs[0], rs[1]);
    }
  }

  /** `bitranges::iter`: a run, and the first bit after it. */
  class RunIterator {
    const bits: BitVec
    var valid: bool
    var ptr: int
    var range: (nat, nat)

    constructor (bits: BitVec, start: int)
      requires start >= -1
      ensures this.bits == bits && valid && ptr == start
    {
      this.bits := bits;
      valid := true;
      ptr := start;
      range := (0, 0);
    }

    /** On the run `range`, or past the last one. */
    ghost predicate OnRun(ws: seq<Word>)
      reads this
    {
      if valid then IsRun(ws, range) && IsNext(ws, range.1 + 1, ptr) else ptr == -1
    }

    /** `operator++`; before the first run `ptr` is the first bit. */
    method Advance(ghost ws: seq<Word>, ghost from: nat)
      requires bits.Valid() && bits.Contents() == ws && valid && IsNext(ws, from, ptr)
      requires from > 0 ==> !GetBit(ws, from)
      modifies this
      ensures OnRun(ws) && valid == (old(ptr) >= 0)
      ensures valid ==> range.0 == old(ptr)
    {
      if ptr < 0 {
        valid := false;
        return;
      }
      var first: nat, second: nat := ptr, ptr;
      assert first > 0 ==> !GetBit(ws, first - 1);
      ptr := bits.Following(ptr);
      while ptr >= 0 && second + 1 == ptr
        invariant first <= second && forall n: nat | first <= n <= second :: GetBit(ws, n)
        invariant IsNext(ws, second + 1, ptr) && valid
        decreases 64 * |ws| - second
      {
        assert second + 1 < 64 * |ws|;
        second := second + 1;
        ptr := bits.Following(ptr);
      }
      range := (first, second);
    }
  }

  /** Going through `bitranges`: all runs, in order. */
  method Runs(v: BitVec) returns (rs: seq<(nat, nat)>)
    requires v.Valid()
    ensures IsRuns(v.Contents(), rs)
  {
    ghost var ws := v.Contents();
    rs := [];
    var start := v.Ffs(0);
    NoRunsYet(ws, start);
    var it := new RunIterator(v, start);
    it.Advance(ws, 0);
    while it.valid
      invariant fresh(it) && it.bits == v && v.Valid() && v.Contents() == ws
      invariant it.OnRun(ws) && Collected(ws, rs, it)
      decreases if it.valid then 64 * |ws| - it.range.0 else -1
    {
      rs := TakeRun(it, ws, rs);
    }
  }

  /** All runs up to the one the iterator is on. */
  ghost predicate Collected(ws: seq<Word>, rs: seq<(nat, nat)>, it: RunIterator)
    reads it
  {
    if it.valid then RunsBelow(ws, rs, it.range.0) && it.range.0 < 64 * |ws| else IsRuns(ws, rs)
  }

  method TakeRun(it: RunIterator, ghost ws: seq<Word>, rs: seq<(nat, nat)>) returns (more: seq<(nat, nat)>)
    requires it.bits.Valid() && it.bits.Contents() == ws && it.valid && it.OnRun(ws) && Collected(ws, rs, it)
    modifies it
    ensures more == rs + [old(it.range)]
    ensures it.OnRun(ws) && Collected(ws, more, it) && (it.valid ==> it.range.0 > old(it.range.0))
  {
    var r := it.range;
    RunFits(ws, r);
    OneMoreRun(ws, rs, r, it.ptr);
    it.Advance(ws, r.1 + 1);
    more := rs + [r];
    if it.valid { RunFits(ws, it.range); }
  }

  lemma NoRunsYet(ws: seq<Word>, start: int)
    requires IsNext(ws, 0, start)
    ensures if start >= 0 then RunsBelow(ws, [], start) && start < 64 * |ws| else IsRuns(ws, [])
  {
  }

  lemma RunFits(ws: seq<Word>, r: (nat, nat))
    requires IsRun(ws, r)
    ensures r.0 < 64 * |ws|
    ensures !GetBit(ws, r.1 + 1)
  {
    assert GetBit(ws, r.0);
  }

  lemma OneMoreRun(ws: seq<Word>, rs: seq<(nat, nat)>, r: (nat, nat), next: int)
    requires RunsBelow(ws, rs, r.0) && IsRun(ws, r) && IsNext(ws, r.1 + 1, next)
    ensures if next >= 0 then RunsBelow(ws, rs + [r], next) else IsRuns(ws, rs + [r])
  {
    var end := if next >= 0 then next else 64 * |ws|;
    assert r.1 < end by {
      if next < 0 { assert GetBit(ws, r.1); }
    }
    forall n: nat | n < end && GetBit(ws, n) ensures Covered(rs + [r], n) {
      CoveredByMore(rs, r, n);
    }
  }

  lemma CoveredByMore(rs: seq<(nat, nat)>, r: (nat, nat), n: nat)
    ensures Covered(rs, n) || r.0 <= n <= r.1 ==> Covered(rs + [r], n)
  {
    if Covered(rs, n) {
      var i :| 0 <= i < |rs| && rs[i].0 <= n <= rs[i].1;
      assert (rs + [r])[i] == rs[i];
    } else {
      assert (rs + [r])[|rs|] == r;
    }
  }
}
