/** The entry that wins a lookup is the same before and after translation. */
module EntriesLookup {
  import opened Wrappers
  import opened BigInt
  import opened Bytestrings
  import opened Entries
  import opened EntriesErrors
  import opened FieldIds

  // ---------------------------------------------------------------- what matches

  /** Section 14.2.1.4 of the P4_16 Language Specification: keyset expressions. */
  predicate ExprMatches(k: KeyExpr, v: nat) {
    match k
    case Default => true
    case Mask(l, r) =>
      var value, mask := Denoted(l), Denoted(r);
      value.Some? && mask.Some? && And(v, mask.value) == And(value.value, mask.value)
    case Range(l, r) =>
      var low, high := Denoted(l), Denoted(r);
      low.Some? && high.Some? && low.value <= v <= high.value
    case _ => Denoted(k) == Some(v)
  }

  /** A boolean key is one bit: `true` matches 1 and `false` matches 0, cast or not, and nothing else. */
  lemma BooleanMatches(truth: bool, v: nat)
    ensures ExprMatches(BoolLiteral(truth), v) <==> v == if truth then 1 else 0
    ensures ExprMatches(Cast(BoolLiteral(truth)), v) <==> ExprMatches(BoolLiteral(truth), v)
  {
  }

  predicate EntryMatches(ks: seq<KeyExpr>, packet: seq<nat>, n: nat)
    requires n <= |ks| && n <= |packet|
  {
    forall i | 0 <= i < n :: ExprMatches(ks[i], packet[i])
  }

  /** Section 9.1.1 of the P4Runtime Specification: match fields. */
  predicate FieldHolds(f: Field, v: nat, width: nat) {
    match f
    case ExactField(b) => v == Decode(b)
    case LpmField(b, len) => 0 <= len <= width && v / Pow2(width - len) == Decode(b) / Pow2(width - len)
    case TernaryField(b, m) => And(v, Decode(m)) == Decode(b)
    case RangeField(low, high) => Decode(low) <= v <= Decode(high)
    case OptionalField(b) => v == Decode(b)
  }

  /** Ids count the keys of the table from 1. */
  predicate MatchHolds(keys: seq<Key>, m: FieldMatch, packet: seq<nat>) {
    1 <= m.id <= |keys| && m.id <= |packet| && FieldHolds(m.field, packet[m.id - 1], keys[m.id - 1].width)
  }

  predicate AllHold(keys: seq<Key>, ms: seq<FieldMatch>, packet: seq<nat>) {
    forall i | 0 <= i < |ms| :: MatchHolds(keys, ms[i], packet)
  }

  // ---------------------------------------------------------------- one key

  /** Every member in the expression names a value of an enumeration. */
  predicate Resolved(k: KeyExpr) {
    match k
    case UnresolvedMember => false
    case Cast(e) => Resolved(e)
    case Mask(l, r) => Resolved(l) && Resolved(r)
    case Range(l, r) => Resolved(l) && Resolved(r)
    case _ => true
  }

  lemma ReprDecodes(value: int, width: nat)
    requires Representable(value, width) && Repr(value, width).errors == []
    ensures 0 <= value && Repr(value, width).result.Some? && Decode(Repr(value, width).result.value) == value
  {
    StringReprRoundTrip(value, width);
  }

  lemma {:induction false} SimpleResolved(k: KeyExpr)
    requires Resolved(k) && SimpleValue(k).errors == []
    ensures SimpleValue(k).result.Some? && SimpleValue(k).result == Denoted(k)
  {
    SimpleDenotes(k);
    if k.Cast? { SimpleResolved(k.expr); }
  }

  lemma SimpleTranslated(k: KeyExpr, width: nat)
    requires Fits(k, width) && Resolved(k) && ConvertSimple(k, width).errors == []
    ensures SimpleValue(k).result.Some? && ConvertSimple(k, width).result.Some?
    ensures Denoted(k) == Some(Decode(ConvertSimple(k, width).result.value))
    ensures !k.Mask? && !k.Range? && !k.Default?
  {
    SimpleResolved(k);
    ReprDecodes(SimpleValue(k).result.value, width);
  }

  /** The mask of a longest-prefix match has no bits beyond the width of its key. */
  predicate MaskInWidth(key: Key, k: KeyExpr) {
    key.kind == Lpm && k.Mask? && k.right.Constant? ==> k.right.value < Pow2(key.width)
  }

  lemma LpmTranslated(k: KeyExpr, width: nat, v: nat)
    requires Sane(Key(Lpm, width), k) && Resolved(k) && v < Pow2(width) && EmitLpm(k, width).errors == []
    requires MaskInWidth(Key(Lpm, width), k)
    ensures var f := EmitLpm(k, width).result;
            if f.Some? then FieldHolds(f.value, v, width) <==> ExprMatches(k, v) else ExprMatches(k, v)
  {
    if k.Mask? {
      SimpleResolved(k.left);
      PrefixMatches(SimpleValue(k.left).result.value, k.right.value, width, v);
    } else if !k.Default? {
      SimpleTranslated(k, width);
      assert Pow2(width - width) == 1;
    }
  }

  /** A masked value and the length of its prefix say as much as the value and the mask. */
  lemma PrefixMatches(x: int, mask: nat, width: nat, v: nat)
    requires mask < Pow2(width) && v < Pow2(width) && ZerosBelow(mask, width) + Popcount(mask) == width
    ensures mask == 0 ==> And(v, mask) == And(x, mask)
    ensures mask != 0 ==>
      var bytes := Repr(And(x, mask), width);
      && bytes.result.Some? && bytes.errors == []
      && (FieldHolds(LpmField(bytes.result.value, width - ZerosBelow(mask, width)), v, width) <==> And(v, mask) == And(x, mask))
  {
    if mask == 0 {
      AndZero(v);
      AndZero(x);
    } else {
      PrefixMaskIff(mask, width);
      AndBounds(x, mask);
      AndAgain(x, mask);
      PrefixFieldMatches(And(x, mask), width, width - ZerosBelow(mask, width), v);
    }
  }

  /** A longest-prefix match that is emitted for a mask matches what its expression matches if and
      only if the mask is in width: the test of the mask lets wider ones through. */
  lemma LpmExactlyIfInWidth(k: KeyExpr, width: nat)
    requires Sane(Key(Lpm, width), k) && Resolved(k) && k.Mask?
    requires EmitLpm(k, width).errors == [] && EmitLpm(k, width).result.Some?
    ensures (forall v: nat | v < Pow2(width) :: FieldHolds(EmitLpm(k, width).result.value, v, width) <==> ExprMatches(k, v))
            <==> MaskInWidth(Key(Lpm, width), k)
  {
    if MaskInWidth(Key(Lpm, width), k) {
      forall v: nat | v < Pow2(width)
        ensures FieldHolds(EmitLpm(k, width).result.value, v, width) <==> ExprMatches(k, v)
      {
        LpmTranslated(k, width, v);
      }
    } else {
      SimpleResolved(k.left);
      var x, mask := SimpleValue(k.left).result.value, k.right.value;
      var v := OverwideDiffers(x, mask, width);
      assert !(FieldHolds(EmitLpm(k, width).result.value, v, width) <==> ExprMatches(k, v));
    }
  }

  /** A packet that matches under an over-wide mask but not in the upper bits. */
  lemma OverwideDiffers(x: int, mask: nat, width: nat) returns (v: nat)
    requires mask >= Pow2(width) && ZerosBelow(mask, width) + Popcount(mask) == width
    requires Representable(And(x, mask), width)
    ensures v < Pow2(width) && ZerosBelow(mask, width) <= width && And(v, mask) == And(x, mask)
    ensures var bytes := Repr(And(x, mask), width);
            bytes.result.Some? && !FieldHolds(LpmField(bytes.result.value, width - ZerosBelow(mask, width)), v, width)
  {
    AndBounds(x, mask);
    AndAgain(x, mask);
    v := FreeBit(mask, And(x, mask), width);
    ReprDecodes(And(x, mask), width);
  }

  lemma PrefixFieldMatches(b: nat, width: nat, len: nat, v: nat)
    requires len <= width && b < Pow2(width) && v < Pow2(width) && And(b, PrefixMask(width, len)) == b
    ensures var bytes := Repr(b, width);
            && bytes.result.Some? && bytes.errors == []
            && (FieldHolds(LpmField(bytes.result.value, len), v, width) <==> And(v, PrefixMask(width, len)) == b)
  {
    StringReprRoundTrip(b, width);
    PrefixMaskMatches(v, b, width, len);
  }

  lemma TernaryTranslated(k: KeyExpr, width: nat, v: nat)
    requires Sane(Key(Ternary, width), k) && Resolved(k) && v < Pow2(width) && EmitTernary(k, width).errors == []
    ensures var f := EmitTernary(k, width).result;
            if f.Some? then FieldHolds(f.value, v, width) <==> ExprMatches(k, v) else ExprMatches(k, v)
  {
    if k.Mask? {
      TernaryMaskTranslated(k.left, k.right, width, v);
    } else if !k.Default? {
      SimpleTranslated(k, width);
      AllOnesHold(ConvertSimple(k, width).result.value, width, v);
    }
  }

  lemma TernaryMaskTranslated(left: KeyExpr, right: KeyExpr, width: nat, v: nat)
    requires Sane(Key(Ternary, width), Mask(left, right)) && Resolved(left) && Resolved(right) && v < Pow2(width)
    requires EmitTernary(Mask(left, right), width).errors == []
    ensures var f := EmitTernary(Mask(left, right), width).result;
            if f.Some? then FieldHolds(f.value, v, width) <==> ExprMatches(Mask(left, right), v)
            else ExprMatches(Mask(left, right), v)
  {
    MaskIsClean(left, right, width);
    ReadableIsClean(left);
    ReadableIsClean(right);
    SimpleResolved(left);
    SimpleResolved(right);
    var x, mask := Denoted(left).value, Denoted(right).value;
    AndBounds(x, mask);
    MaskEmission(left, right, x, mask, width);
    MaskTranslated(x, mask, width, v);
  }

  lemma MaskEmission(left: KeyExpr, right: KeyExpr, x: int, mask: nat, width: nat)
    requires SimpleValue(left).result == Some(x) && SimpleValue(right).result == Some(mask) && And(x, mask) >= 0
    ensures EmitTernary(Mask(left, right), width).result ==
              if mask == 0 then None
              else Some(TernaryField(Repr(And(x, mask), width).result.value, Repr(mask, width).result.value))
  {
  }

  lemma AllOnesHold(b: Bytes, width: nat, v: nat)
    requires v < Pow2(width)
    ensures FieldHolds(TernaryField(b, BigEndian(Pow2(width) - 1, BytesFor(width))), v, width) <==> v == Decode(b)
  {
    AndOnes(v, width);
    StringReprRoundTrip(Pow2(width) - 1, width);
  }

  lemma MaskTranslated(x: int, mask: int, width: nat, v: nat)
    requires mask != 0 ==> Representable(And(x, mask), width) && Representable(mask, width)
    ensures mask == 0 ==> And(v, mask) == And(x, mask)
    ensures mask != 0 && Repr(And(x, mask), width).errors + Repr(mask, width).errors == [] ==>
      var b, m := Repr(And(x, mask), width), Repr(mask, width);
      b.result.Some? && m.result.Some? &&
      (FieldHolds(TernaryField(b.result.value, m.result.value), v, width) <==> And(v, mask) == And(x, mask))
  {
    if mask == 0 {
      AndZero(v);
      AndZero(x);
    } else if Repr(And(x, mask), width).errors + Repr(mask, width).errors == [] {
      ReprDecodes(mask, width);
      ReprDecodes(And(x, mask), width);
    }
  }

  lemma ValueAsRange(b: Bytes, width: nat, v: nat)
    ensures FieldHolds(RangeField(b, b), v, width) <==> v == Decode(b)
  {
  }

  lemma RangeTranslated(k: KeyExpr, width: nat, v: nat)
    requires Sane(Key(Ranged, width), k) && Resolved(k) && v < Pow2(width)
    requires forall e | e in EmitRange(k, width).errors :: e == InvalidRange
    ensures var f := EmitRange(k, width).result;
            if f.Some? then FieldHolds(f.value, v, width) <==> ExprMatches(k, v) else ExprMatches(k, v)
  {
    if k.Range? {
      RangeOfBoundsTranslated(k.left, k.right, width, v);
    } else if !k.Default? {
      assert EmitRange(k, width).errors == ConvertSimple(k, width).errors;
      NoInvalidRange(k, width);
      SimpleTranslated(k, width);
      ValueAsRange(ConvertSimple(k, width).result.value, width, v);
    }
  }

  lemma RangeOfBoundsTranslated(left: KeyExpr, right: KeyExpr, width: nat, v: nat)
    requires Sane(Key(Ranged, width), Range(left, right)) && Resolved(left) && Resolved(right) && v < Pow2(width)
    requires forall e | e in EmitRange(Range(left, right), width).errors :: e == InvalidRange
    ensures var f := EmitRange(Range(left, right), width).result;
            if f.Some? then FieldHolds(f.value, v, width) <==> ExprMatches(Range(left, right), v)
            else ExprMatches(Range(left, right), v)
  {
    OnlyInvalidRange(left, right, width);
    SimpleResolved(left);
    SimpleResolved(right);
    NaturalBoundsTranslated(left, right, SimpleValue(left).result.value, SimpleValue(right).result.value, width, v);
  }

  lemma NaturalBoundsTranslated(left: KeyExpr, right: KeyExpr, low: int, high: int, width: nat, v: nat)
    requires SimpleValue(left).result == Denoted(left) == Some(low) && SimpleValue(right).result == Denoted(right) == Some(high)
    requires SaneRange(Some(low), Some(high), width) && v < Pow2(width)
    requires EveryValue(Some(low), Some(high), width) || (low >= 0 && high >= 0)
    ensures var f := EmitRange(Range(left, right), width).result;
            if f.Some? then FieldHolds(f.value, v, width) <==> ExprMatches(Range(left, right), v)
            else ExprMatches(Range(left, right), v)
  {
    if EveryValue(Some(low), Some(high), width) {
      EveryValueEmitsNothing(left, right, width);
    } else {
      NaturalBoundsEmit(left, right, low, high, width);
      BoundsTranslated(low, high, width);
    }
  }

  lemma NaturalBoundsEmit(left: KeyExpr, right: KeyExpr, low: nat, high: nat, width: nat)
    requires SimpleValue(left).result == Some(low) && SimpleValue(right).result == Some(high)
    requires !EveryValue(Some(low), Some(high), width)
    ensures EmitRange(Range(left, right), width).result ==
              Some(RangeField(Repr(low, width).result.value, Repr(high, width).result.value))
  {
  }

  lemma EveryValueEmitsNothing(left: KeyExpr, right: KeyExpr, width: nat)
    requires EveryValue(SimpleValue(left).result, SimpleValue(right).result, width)
    ensures EmitRange(Range(left, right), width).result == None
  {
  }

  lemma OnlyInvalidRange(left: KeyExpr, right: KeyExpr, width: nat)
    requires Sane(Key(Ranged, width), Range(left, right)) && Resolved(left) && Resolved(right)
    requires forall e | e in EmitRange(Range(left, right), width).errors :: e == InvalidRange
    ensures SimpleValue(left).errors == [] && SimpleValue(right).errors == []
    ensures var low, high := SimpleValue(left).result, SimpleValue(right).result;
            low.Some? && high.Some? && !EveryValue(low, high, width) ==> low.value >= 0 && high.value >= 0
  {
    var key, k := Key(Ranged, width), Range(left, right);
    RangeReports(k, width, InvalidKey);
    RangeReports(k, width, InvalidMember);
    PartsReadAre(key, k, left, right);
    SimpleDenotes(left);
    SimpleDenotes(right);
    if Denoted(left).Some? && Denoted(right).Some? {
      RangeReports(k, width, NegativeValue(Denoted(left).value));
      RangeReports(k, width, NegativeValue(Denoted(right).value));
    }
  }

  lemma NoInvalidRange(k: KeyExpr, width: nat)
    requires forall e | e in ConvertSimple(k, width).errors :: e == InvalidRange
    ensures ConvertSimple(k, width).errors == []
  {
    var errors := ConvertSimple(k, width).errors;
    if errors != [] { SimpleReports(k, width, errors[0]); }
  }

  lemma BoundsTranslated(low: int, high: int, width: nat)
    requires !(low == 0 && high == Pow2(width) - 1) ==> Representable(low, width) && Representable(high, width)
    ensures !(low == 0 && high == Pow2(width) - 1) && Repr(low, width).errors + Repr(high, width).errors == [] ==>
      var l, h := Repr(low, width), Repr(high, width);
      l.result.Some? && h.result.Some? && Decode(l.result.value) == low && Decode(h.result.value) == high
  {
    if !(low == 0 && high == Pow2(width) - 1) && Repr(low, width).errors + Repr(high, width).errors == [] {
      ReprDecodes(low, width);
      ReprDecodes(high, width);
    }
  }

  lemma OnlyRangesAreInvalid(key: Key, k: KeyExpr)
    requires Sane(key, k) && key.kind != Ranged && forall e | e in Emit(key, k).errors :: e == InvalidRange
    ensures Emit(key, k).errors == []
  {
    var errors := Emit(key, k).errors;
    if errors != [] { KeyReports(key, k, errors[0]); }
  }

  /** Without an error, or with none but that a range is the wrong way round, what is emitted for a key
      matches exactly what the source matches, and nothing is emitted only where everything matches. */
  lemma KeyTranslated(key: Key, k: KeyExpr, v: nat)
    requires Sane(key, k) && MaskInWidth(key, k) && Resolved(k) && v < Pow2(key.width)
    requires forall e | e in Emit(key, k).errors :: e == InvalidRange
    ensures var f := Emit(key, k).result;
            if f.Some? then FieldHolds(f.value, v, key.width) <==> ExprMatches(k, v) else ExprMatches(k, v)
  {
    if key.kind != Ranged { OnlyRangesAreInvalid(key, k); }
    match key.kind
    case Lpm => LpmTranslated(k, key.width, v);
    case Ternary => TernaryTranslated(k, key.width, v);
    case Ranged =>
      assert Emit(key, k) == EmitRange(k, key.width);
      RangeTranslated(k, key.width, v);
    case Unsupported =>
    case _ => if key.kind == Exact || !k.Default? { SimpleTranslated(k, key.width); }
  }

  // ---------------------------------------------------------------- one entry

  /** No supported key comes after one that is not. */
  predicate Aligned(keys: seq<Key>) {
    forall i, j | 0 <= i < j < |keys| && keys[j].kind != Unsupported :: keys[i].kind != Unsupported
  }

  lemma {:induction false} FieldIdBehind(keys: seq<Key>, i: nat, n: nat)
    requires i < n <= |keys| && keys[i].kind == Unsupported
    ensures FieldId(keys, n) <= n
  {
    FieldIdBound(keys, n - 1);
    if n > i + 1 { FieldIdBehind(keys, i, n - 1); }
  }

  lemma {:induction false} FieldIdBound(keys: seq<Key>, n: nat)
    requires n <= |keys|
    ensures FieldId(keys, n) <= n + 1
  {
    if n > 0 { FieldIdBound(keys, n - 1); }
  }

  /** Without annotations, the ids of the emitted matches are those of the table's match fields exactly
      if every unsupported key comes last: the converter does not count unsupported keys. */
  lemma IdsAgreeExactlyIfAligned(keys: seq<Key>)
    ensures (forall i | 0 <= i < |keys| && keys[i].kind != Unsupported ::
               FieldId(keys, i) == MatchFieldId(NoAnnotations(|keys|), i)) <==> Aligned(keys)
  {
    var none := NoAnnotations(|keys|);
    forall i | 0 <= i < |keys| ensures MatchFieldId(none, i) == i + 1 {
      MatchFieldIdsAreInOrder(|keys|, i);
    }
    if Aligned(keys) {
      forall i | 0 <= i < |keys| && keys[i].kind != Unsupported ensures FieldId(keys, i) == MatchFieldId(none, i) {
        CountsAll(keys, i);
      }
    } else {
      var i, j :| 0 <= i < j < |keys| && keys[j].kind != Unsupported && keys[i].kind == Unsupported;
      FieldIdBehind(keys, i, j);
      assert FieldId(keys, j) != MatchFieldId(none, j);
    }
  }

  predicate InWidth(keys: seq<Key>, packet: seq<nat>) {
    |packet| == |keys| && forall i | 0 <= i < |keys| :: packet[i] < Pow2(keys[i].width)
  }

  /** What a key gives matches what its expression matches. */
  ghost predicate Translates(keys: seq<Key>, f: Option<Field>, k: KeyExpr, packet: seq<nat>, i: nat)
    requires i < |keys| && i < |packet|
  {
    && (f.Some? ==> keys[i].kind != Unsupported)
    && (AllHold(keys, Numbered(i + 1, f), packet) <==> ExprMatches(k, packet[i]))
  }

  lemma {:induction false} GatherTranslated(keys: seq<Key>, outs: seq<Outcome<Option<Field>>>, ks: seq<KeyExpr>,
                                            packet: seq<nat>, n: nat)
    requires n <= |outs| == |ks| <= |keys| == |packet| && Aligned(keys)
    requires forall i | 0 <= i < n :: Translates(keys, outs[i].result, ks[i], packet, i)
    ensures AllHold(keys, Gather(keys, outs, n).result, packet) <==> EntryMatches(ks, packet, n)
    decreases n
  {
    if n > 0 {
      var f := outs[n - 1].result;
      GatherTranslated(keys, outs, ks, packet, n - 1);
      assert Translates(keys, f, ks[n - 1], packet, n - 1);
      NumberedAligned(keys, n - 1, f);
      GatheredLast(keys, outs, packet, n);
      EntryMatchesNext(ks, packet, n - 1);
    }
  }

  lemma GatheredLast(keys: seq<Key>, outs: seq<Outcome<Option<Field>>>, packet: seq<nat>, n: nat)
    requires 0 < n <= |outs| <= |keys| && Numbered(FieldId(keys, n - 1), outs[n - 1].result) == Numbered(n, outs[n - 1].result)
    ensures AllHold(keys, Gather(keys, outs, n).result, packet) <==>
              AllHold(keys, Gather(keys, outs, n - 1).result, packet) && AllHold(keys, Numbered(n, outs[n - 1].result), packet)
  {
    AllHoldAppend(keys, Gather(keys, outs, n - 1).result, Numbered(n, outs[n - 1].result), packet);
  }

  /** Without errors, an entry's matches hold for the packets that its expressions match. */
  lemma MatchKeyTranslated(keys: seq<Key>, ks: seq<KeyExpr>, packet: seq<nat>)
    requires SaneKeys(keys, ks) && |ks| == |keys| && Aligned(keys) && InWidth(keys, packet)
    requires forall i | 0 <= i < |ks| :: Resolved(ks[i]) && MaskInWidth(keys[i], ks[i])
    requires MatchKey(keys, ks).errors == []
    ensures AllHold(keys, MatchKey(keys, ks).result, packet) <==> EntryMatches(ks, packet, |keys|)
  {
    var outs := Emissions(keys, ks);
    GatherIsClean(keys, outs, |ks|);
    forall i | 0 <= i < |ks| ensures Translates(keys, outs[i].result, ks[i], packet, i) {
      assert outs[i].errors == [] && Resolved(ks[i]) && MaskInWidth(keys[i], ks[i]);
      NumberedTranslated(keys, ks[i], packet, i);
    }
    GatherTranslated(keys, outs, ks, packet, |ks|);
  }

  lemma EntryMatchesNext(ks: seq<KeyExpr>, packet: seq<nat>, i: nat)
    requires i < |ks| && i < |packet|
    ensures EntryMatches(ks, packet, i + 1) <==> EntryMatches(ks, packet, i) && ExprMatches(ks[i], packet[i])
  {
  }

  lemma NumberedAligned(keys: seq<Key>, i: nat, f: Option<Field>)
    requires Aligned(keys) && i < |keys| && (f.Some? ==> keys[i].kind != Unsupported)
    ensures Numbered(FieldId(keys, i), f) == Numbered(i + 1, f)
  {
    if f.Some? { CountsAll(keys, i); }
  }

  lemma NumberedTranslated(keys: seq<Key>, k: KeyExpr, packet: seq<nat>, i: nat)
    requires i < |keys| == |packet| && packet[i] < Pow2(keys[i].width)
    requires Sane(keys[i], k) && MaskInWidth(keys[i], k) && Resolved(k) && Emit(keys[i], k).errors == []
    ensures Translates(keys, Emit(keys[i], k).result, k, packet, i)
  {
    var f := Emit(keys[i], k).result;
    KeyTranslated(keys[i], k, packet[i]);
    if f.Some? { SingleHolds(keys, FieldMatch(i + 1, f.value), packet); }
  }

  lemma SingleHolds(keys: seq<Key>, m: FieldMatch, packet: seq<nat>)
    ensures AllHold(keys, [m], packet) <==> MatchHolds(keys, m, packet)
  {
    assert [m][0] == m;
  }

  lemma AllHoldAppend(keys: seq<Key>, a: seq<FieldMatch>, b: seq<FieldMatch>, packet: seq<nat>)
    ensures AllHold(keys, a + b, packet) <==> AllHold(keys, a, packet) && AllHold(keys, b, packet)
  {
    if AllHold(keys, a + b, packet) {
      forall i | 0 <= i < |a| ensures MatchHolds(keys, a[i], packet) {
        assert (a + b)[i] == a[i];
      }
      forall i | 0 <= i < |b| ensures MatchHolds(keys, b[i], packet) {
        assert (a + b)[|a| + i] == b[i];
      }
    }
  }

  // ---------------------------------------------------------------- the table

  /** The first entry that matches wins. */
  predicate FirstMatch(t: Table, packet: seq<nat>, i: nat)
    requires WellFormed(t) && |packet| == |t.keys| && i < |t.entries|
  {
    && EntryMatches(t.entries[i].keys, packet, |t.keys|)
    && forall j | 0 <= j < i :: !EntryMatches(t.entries[j].keys, packet, |t.keys|)
  }

  /** The update that matches with the highest priority wins, if there is just one. */
  predicate Wins(keys: seq<Key>, us: seq<Update>, packet: seq<nat>, i: nat)
    requires i < |us|
  {
    && AllHold(keys, us[i].matches, packet)
    && forall j | 0 <= j < |us| && j != i && AllHold(keys, us[j].matches, packet) :: us[j].priority < us[i].priority
  }

  /** What earlier passes see to: an expression for every key, made of literals and enum members,
      with masks in width. */
  predicate WellFormed(t: Table) {
    forall i | 0 <= i < |t.entries| ::
      && |t.entries[i].keys| == |t.keys|
      && forall j | 0 <= j < |t.keys| :: Resolved(t.entries[i].keys[j]) && MaskInWidth(t.keys[j], t.entries[i].keys[j])
  }

  /** Without errors there is one update for each entry, in order. */
  lemma ConvertedAll(t: Table)
    requires SaneTable(t) && Convert(t).errors == []
    ensures |Convert(t).result| == |t.entries|
    ensures forall i | 0 <= i < |t.entries| :: Image(t, i).errors == [] && Convert(t).result[i] == Image(t, i).result.0
  {
    ConvertsUpTo(t);
    ConvertIsClean(t);
    forall i | 0 <= i < |t.entries| ensures Image(t, i).errors == [] { ImageIsClean(t, i); }
    if |Convert(t).result| > 0 { assert AcceptedEntry(t, t.entries[|Convert(t).result| - 1]); }
  }

  lemma UpdateMatchesAsEntry(t: Table, packet: seq<nat>, i: nat)
    requires SaneTable(t) && WellFormed(t) && Aligned(t.keys) && InWidth(t.keys, packet)
    requires i < |t.entries| && Image(t, i).errors == []
    ensures AllHold(t.keys, Image(t, i).result.0.matches, packet) <==> EntryMatches(t.entries[i].keys, packet, |t.keys|)
  {
    MatchKeyTranslated(t.keys, t.entries[i].keys, packet);
  }

  /** Each entry's update matches exactly the packets the entry matches. */
  lemma MatchesArePreserved(t: Table, packet: seq<nat>)
    requires SaneTable(t) && WellFormed(t) && Aligned(t.keys) && InWidth(t.keys, packet) && AcceptedTable(t)
    ensures |Convert(t).result| == |t.entries|
    ensures forall i | 0 <= i < |t.entries| ::
      AllHold(t.keys, Convert(t).result[i].matches, packet) <==> EntryMatches(t.entries[i].keys, packet, |t.keys|)
  {
    ConvertIsClean(t);
    ConvertedAll(t);
    forall i | 0 <= i < |t.entries|
      ensures AllHold(t.keys, Convert(t).result[i].matches, packet) <==> EntryMatches(t.entries[i].keys, packet, |t.keys|)
    {
      UpdateMatchesAsEntry(t, packet, i);
    }
  }

  /** For constant tables that need priorities, the update that wins a lookup is that of the first
      entry that matches; and there is none exactly if no entry matches. */
  lemma LookupIsPreserved(t: Table, packet: seq<nat>)
    requires SaneTable(t) && WellFormed(t) && Aligned(t.keys) && InWidth(t.keys, packet) && AcceptedTable(t)
    requires t.isConst && NeedsPriority(t.keys)
    ensures |Convert(t).result| == |t.entries|
    ensures forall i | 0 <= i < |t.entries| :: Wins(t.keys, Convert(t).result, packet, i) <==> FirstMatch(t, packet, i)
    ensures (forall i | 0 <= i < |t.entries| :: !AllHold(t.keys, Convert(t).result[i].matches, packet)) <==>
            (forall i | 0 <= i < |t.entries| :: !EntryMatches(t.entries[i].keys, packet, |t.keys|))
  {
    ConvertIsClean(t);
    MatchesArePreserved(t, packet);
    var us := Convert(t).result;
    forall i | 0 <= i < |us| ensures us[i].priority == |us| - i {
      PriorityOfConstant(t, i);
    }
    forall i | 0 <= i < |us| ensures Wins(t.keys, us, packet, i) <==> FirstMatch(t, packet, i) {
      WinsIfFirst(t.keys, us, packet, i);
    }
  }

  lemma PriorityOfConstant(t: Table, i: nat)
    requires SaneTable(t) && Convert(t).errors == [] && t.isConst && NeedsPriority(t.keys) && i < |t.entries|
    ensures |Convert(t).result| == |t.entries| && Convert(t).result[i].priority == |t.entries| - i
  {
    ConvertedAll(t);
  }

  /** When priorities go down, the first that matches wins. */
  lemma WinsIfFirst(keys: seq<Key>, us: seq<Update>, packet: seq<nat>, i: nat)
    requires i < |us| && forall j | 0 <= j < |us| :: us[j].priority == |us| - j
    ensures Wins(keys, us, packet, i) <==>
              AllHold(keys, us[i].matches, packet) && forall j | 0 <= j < i :: !AllHold(keys, us[j].matches, packet)
  {
  }

  /** Each update is for its table, and constant if the table or its entry is. */
  lemma UpdatesCarryOver(t: Table, i: nat)
    requires SaneTable(t) && i < |Convert(t).result|
    ensures i < |t.entries| && Convert(t).result[i].table == t.id
    ensures Convert(t).result[i].isConst <==> t.isConst || t.entries[i].isConst
  {
    ConvertsUpTo(t);
  }

  /** Elsewhere an update has the priority its entry gives, or none if none is needed. */
  lemma PrioritiesAsGiven(t: Table, i: nat)
    requires SaneTable(t) && AcceptedTable(t) && i < |t.entries| && !(t.isConst && NeedsPriority(t.keys))
    ensures i < |Convert(t).result|
    ensures if NeedsPriority(t.keys) then t.entries[i].priority == Some(Constant(Convert(t).result[i].priority))
            else Convert(t).result[i].priority == 0
  {
    ConvertIsClean(t);
    ConvertedAll(t);
  }

  /** In a table that is not constant, the update that wins a lookup is that of the matching entry
      whose given priority exceeds that of every other one that matches. */
  lemma GivenPriorityDecides(t: Table, packet: seq<nat>)
    requires SaneTable(t) && WellFormed(t) && Aligned(t.keys) && InWidth(t.keys, packet) && AcceptedTable(t)
    requires !t.isConst && NeedsPriority(t.keys)
    ensures |Convert(t).result| == |t.entries|
    ensures forall i | 0 <= i < |t.entries| :: Wins(t.keys, Convert(t).result, packet, i) <==> HighestGiven(t, packet, i)
  {
    ConvertIsClean(t);
    MatchesArePreserved(t, packet);
    var us := Convert(t).result;
    forall i | 0 <= i < |us| ensures us[i].priority == GivenPriority(t.entries[i]) {
      PrioritiesAsGiven(t, i);
    }
    forall i | 0 <= i < |us| ensures Wins(t.keys, us, packet, i) <==> HighestGiven(t, packet, i) {
      WinsIfHighest(t, us, packet, i);
    }
  }

  lemma WinsIfHighest(t: Table, us: seq<Update>, packet: seq<nat>, i: nat)
    requires WellFormed(t) && |packet| == |t.keys| && i < |t.entries| == |us|
    requires forall j | 0 <= j < |us| :: us[j].priority == GivenPriority(t.entries[j])
    requires forall j | 0 <= j < |us| ::
               AllHold(t.keys, us[j].matches, packet) <==> EntryMatches(t.entries[j].keys, packet, |t.keys|)
    ensures Wins(t.keys, us, packet, i) <==> HighestGiven(t, packet, i)
  {
  }

  predicate HighestGiven(t: Table, packet: seq<nat>, i: nat)
    requires WellFormed(t) && |packet| == |t.keys| && i < |t.entries|
  {
    && EntryMatches(t.entries[i].keys, packet, |t.keys|)
    && forall j | 0 <= j < |t.entries| && j != i && EntryMatches(t.entries[j].keys, packet, |t.keys|) ::
         GivenPriority(t.entries[j]) < GivenPriority(t.entries[i])
  }

  function GivenPriority(e: Entry): int {
    if e.priority.Some? && e.priority.value.Constant? then e.priority.value.value else 0
  }

  // ---------------------------------------------------------------- actions

  lemma ArgumentTranslated(a: Argument)
    requires SaneArgument(a)
    ensures ArgumentRepr(a).result.Some? <==> AcceptedArgument(a)
    ensures AcceptedArgument(a) ==> Denoted(a.expr) == Some(Decode(ArgumentRepr(a).result.value))
  {
    SimpleDenotes(a.expr);
    if AcceptedArgument(a) {
      UncastKeepsValue(a.expr, a.width);
      ReprDecodes(SimpleValue(a.expr).result.value, a.width);
    }
  }

  lemma {:induction false} UncastKeepsValue(k: KeyExpr, width: nat)
    requires Fits(k, width)
    ensures SimpleValue(Uncast(k)) == SimpleValue(k) && Fits(Uncast(k), width)
  {
    if k.Cast? { UncastKeepsValue(k.expr, width); }
  }

  /** A parameter for an argument: in its place, and with its value if it has one to represent. */
  predicate Stands(p: Param, a: Argument, j: nat) {
    && p.id == j + 1
    && (p.value.Some? <==> AcceptedArgument(a))
    && (p.value.Some? ==> Denoted(a.expr) == Some(Decode(p.value.value)))
  }

  lemma {:induction false} ParamsTranslated(args: seq<Argument>)
    requires forall i | 0 <= i < |args| :: SaneArgument(args[i])
    ensures |Params(args).result| == |args|
    ensures forall i | 0 <= i < |args| :: Stands(Params(args).result[i], args[i], i)
  {
    if args != [] {
      var n := |args| - 1;
      ParamsTranslated(args[..n]);
      ArgumentTranslated(args[n]);
      assert forall i | 0 <= i < n :: args[..n][i] == args[i] && Params(args).result[i] == Params(args[..n]).result[i];
    }
  }

  /** Each update carries its entry's action if that is a call, with a parameter for each argument, which
      decodes to the argument; one that cannot be represented is left without a value. */
  lemma ActionIsPreserved(t: Table, i: nat)
    requires SaneTable(t) && i < |Convert(t).result|
    ensures i < |t.entries| && (Convert(t).result[i].action.Some? <==> t.entries[i].action.Call?)
    ensures t.entries[i].action.Call? ==>
      var source, image := t.entries[i].action, Convert(t).result[i].action.value;
      && image.id == source.id && |image.params| == |source.args|
      && forall j | 0 <= j < |source.args| :: Stands(image.params[j], source.args[j], j)
  {
    ConvertsUpTo(t);
    if t.entries[i].action.Call? { ParamsTranslated(t.entries[i].action.args); }
  }
}
