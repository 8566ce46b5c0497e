/** What is reported when table entries are translated, and exactly which tables are translated without
    an error; said of the entries alone. */
module EntriesErrors {
  import opened Wrappers
  import opened BigInt
  import opened Bytestrings
  import opened Entries

  // ---------------------------------------------------------------- what expressions stand for

  /** The number a literal or a member of a serializable enumeration stands for, casts aside; booleans
      are one-bit numbers (section 8.3 of the P4Runtime Specification). */
  function Denoted(k: KeyExpr): Option<int> {
    match k
    case Constant(v) => Some(v)
    case SerEnumMember(v) => Some(v)
    case BoolLiteral(truth) => Some(if truth then 1 else 0)
    case Cast(e) => Denoted(e)
    case _ => None
  }

  lemma {:induction false} SimpleDenotes(k: KeyExpr)
    ensures SimpleValue(k).result == Denoted(k)
    ensures Denoted(Uncast(k)) == Denoted(k) && !Uncast(k).Cast?
    ensures SimpleValue(k).errors == UnreadErrors(Uncast(k))
  {
    if k.Cast? { SimpleDenotes(k.expr); }
  }

  /** What is reported of an expression that stands for no number. */
  function UnreadErrors(k: KeyExpr): seq<Error> {
    if k.PlainEnumMember? then [InvalidMember]
    else if Unreadable(k) then [InvalidKey]
    else []
  }

  predicate Unreadable(k: KeyExpr) {
    k.Default? || k.Mask? || k.Range? || k.OtherExpr?
  }

  // ---------------------------------------------------------------- what is reported of a key

  /** The parts of a key expression that are read as numbers. */
  function PartsRead(key: Key, k: KeyExpr): set<KeyExpr> {
    if key.kind == Unsupported || (k.Default? && key.kind != Exact) then {}
    else if key.kind == Lpm && k.Mask? then {k.left}
    else if key.kind == Ternary && k.Mask? then {k.left, k.right}
    else if key.kind == Ranged && k.Range? then {k.left, k.right}
    else {k}
  }

  predicate ReadsUnreadable(key: Key, k: KeyExpr) {
    exists p | p in PartsRead(key, k) :: Unreadable(Uncast(p))
  }

  predicate ReadsPlainMember(key: Key, k: KeyExpr) {
    exists p | p in PartsRead(key, k) :: Uncast(p).PlainEnumMember?
  }

  lemma PartsReadAre(key: Key, k: KeyExpr, a: KeyExpr, b: KeyExpr)
    requires PartsRead(key, k) == {a, b}
    ensures ReadsUnreadable(key, k) <==> Unreadable(Uncast(a)) || Unreadable(Uncast(b))
    ensures ReadsPlainMember(key, k) <==> Uncast(a).PlainEnumMember? || Uncast(b).PlainEnumMember?
  {
    assert a in PartsRead(key, k) && b in PartsRead(key, k);
  }

  /** The mask of a prefix. Beyond the width there are others that the source takes for one. */
  ghost predicate TakenForPrefix(mask: nat, width: nat) {
    if mask < Pow2(width) then exists len: nat :: len <= width && mask == PrefixMask(width, len)
    else ZerosBelow(mask, width) + Popcount(mask) == width
  }

  /** No number is between two that are given. */
  ghost predicate NoneBetween(low: Option<int>, high: Option<int>) {
    low.Some? && high.Some? && forall v: int :: !IsBetween(low.value, v, high.value)
  }

  predicate IsBetween(low: int, v: int, high: int) {
    low <= v <= high
  }

  predicate EveryValue(low: Option<int>, high: Option<int>, width: nat) {
    low == Some(0) && high == Some(Pow2(width) - 1)
  }

  /** `x` is to be represented for this key. */
  predicate IsRepresented(key: Key, k: KeyExpr, x: int) {
    match key.kind
    case Unsupported => false
    case Ternary =>
      if k.Mask? then
        var value, mask := Denoted(k.left), Denoted(k.right);
        value.Some? && mask.Some? && mask != Some(0) && (x == And(value.value, mask.value) || mask == Some(x))
      else Denoted(k) == Some(x)
    case Ranged =>
      if k.Range? then
        var low, high := Denoted(k.left), Denoted(k.right);
        low.Some? && high.Some? && !EveryValue(low, high, key.width) && (low == Some(x) || high == Some(x))
      else Denoted(k) == Some(x)
    case _ => Denoted(k) == Some(x)
  }

  /** When each error is reported. */
  ghost predicate Reported(key: Key, k: KeyExpr, e: Error)
    requires Sane(key, k)
  {
    match e
    case InvalidKey => ReadsUnreadable(key, k)
    case InvalidMember => ReadsPlainMember(key, k)
    case InvalidMask =>
      key.kind == Lpm && k.Mask? && Denoted(k.left).Some? && k.right.Constant? && k.right.value >= 0
      && !TakenForPrefix(k.right.value, key.width)
    case InvalidRange => key.kind == Ranged && k.Range? && NoneBetween(Denoted(k.left), Denoted(k.right))
    case UnsupportedMatch => key.kind == Unsupported && !k.Default?
    case NegativeValue(x) => x < 0 && IsRepresented(key, k, x)
    case _ => false
  }

  lemma PrefixTest(mask: nat, width: nat)
    ensures TakenForPrefix(mask, width) <==> ZerosBelow(mask, width) + Popcount(mask) == width
  {
    if mask < Pow2(width) {
      PrefixMaskIff(mask, width);
      if len: nat :| len <= width && mask == PrefixMask(width, len) {
        ZerosOfPrefix(width, len);
        assert width - (width - len) == len;
      }
    }
  }

  lemma {:induction false} ZerosOfPrefix(width: nat, len: nat)
    requires len <= width
    ensures ZerosBelow(PrefixMask(width, len), width) == width - len
    decreases width
  {
    if len == width {
      if width > 0 { assert PrefixMask(width, len) % 2 == 1 by { assert Pow2(width) == 2 * Pow2(width - 1) && Pow2(0) == 1; } }
    } else {
      PrefixMaskHalf(width, len);
      ZerosOfPrefix(width - 1, len);
      if len > 0 { PrefixIsPositive(width - 1, len); }
    }
  }

  lemma {:induction false} PrefixIsPositive(width: nat, len: nat)
    requires 0 < len <= width
    ensures PrefixMask(width, len) > 0
    decreases width
  {
    if len < width { PrefixIsPositive(width - 1, len); PrefixMaskHalf(width, len); }
  }

  lemma SimpleReports(k: KeyExpr, width: nat, e: Error)
    ensures e in ConvertSimple(k, width).errors <==>
              match e
              case InvalidKey => Unreadable(Uncast(k))
              case InvalidMember => Uncast(k).PlainEnumMember?
              case NegativeValue(x) => x < 0 && Denoted(k) == Some(x)
              case _ => false
  {
    SimpleDenotes(k);
  }

  lemma BetweenBounds(low: Option<int>, high: Option<int>)
    ensures NoneBetween(low, high) <==> low.Some? && high.Some? && low.value > high.value
  {
    if low.Some? && high.Some? && low.value <= high.value { assert IsBetween(low.value, low.value, high.value); }
  }

  lemma LpmReports(k: KeyExpr, width: nat, e: Error)
    requires Sane(Key(Lpm, width), k)
    ensures e in EmitLpm(k, width).errors <==> Reported(Key(Lpm, width), k, e)
  {
    if k.Mask? {
      SimpleDenotes(k.left);
      if Denoted(k.left).Some? {
        PrefixTest(k.right.value, width);
        AndBounds(Denoted(k.left).value, k.right.value);
      }
      PartsReadAre(Key(Lpm, width), k, k.left, k.left);
    } else {
      SimpleReports(k, width, e);
      if !k.Default? { PartsReadAre(Key(Lpm, width), k, k, k); }
    }
  }

  /** What is reported of a value and its mask. */
  lemma MaskReport(value: int, mask: int, width: nat, e: Error)
    requires mask != 0
    ensures e in Repr(And(value, mask), width).errors + Repr(mask, width).errors <==>
              e.NegativeValue? && e.value < 0 && (e.value == And(value, mask) || e.value == mask)
  {
  }

  lemma TernaryReports(k: KeyExpr, width: nat, e: Error)
    requires Sane(Key(Ternary, width), k)
    ensures e in EmitTernary(k, width).errors <==> Reported(Key(Ternary, width), k, e)
  {
    if k.Mask? {
      TernaryMaskReports(k.left, k.right, width, e);
    } else {
      SimpleReports(k, width, e);
      if !k.Default? { PartsReadAre(Key(Ternary, width), k, k, k); }
    }
  }

  lemma TernaryMaskReports(left: KeyExpr, right: KeyExpr, width: nat, e: Error)
    requires Sane(Key(Ternary, width), Mask(left, right))
    ensures e in EmitTernary(Mask(left, right), width).errors <==> Reported(Key(Ternary, width), Mask(left, right), e)
  {
    SimpleDenotes(left);
    SimpleDenotes(right);
    PartsReadAre(Key(Ternary, width), Mask(left, right), left, right);
    if Denoted(left).Some? && Denoted(right).Some? {
      var value, mask := Denoted(left).value, Denoted(right).value;
      ReadHasNoErrors(left);
      ReadHasNoErrors(right);
      if mask != 0 {
        MaskReport(value, mask, width, e);
        assert EmitTernary(Mask(left, right), width).errors == Repr(And(value, mask), width).errors + Repr(mask, width).errors;
      }
    }
  }

  /** What is reported of two bounds that stand for numbers. */
  lemma BoundsReport(low: int, high: int, width: nat, e: Error)
    ensures var invalid := if low > high then [InvalidRange] else [];
            var every := low == 0 && high == Pow2(width) - 1;
            e in (if every then invalid else invalid + Repr(low, width).errors + Repr(high, width).errors) <==>
              || (e == InvalidRange && low > high)
              || (e.NegativeValue? && !every && e.value < 0 && (e.value == low || e.value == high))
  {
  }

  lemma RangeReports(k: KeyExpr, width: nat, e: Error)
    requires Sane(Key(Ranged, width), k)
    ensures e in EmitRange(k, width).errors <==> Reported(Key(Ranged, width), k, e)
  {
    if k.Range? {
      RangeOfBoundsReports(k.left, k.right, width, e);
    } else {
      SimpleReports(k, width, e);
      if !k.Default? { PartsReadAre(Key(Ranged, width), k, k, k); }
    }
  }

  lemma RangeOfBoundsReports(left: KeyExpr, right: KeyExpr, width: nat, e: Error)
    requires Sane(Key(Ranged, width), Range(left, right))
    ensures e in EmitRange(Range(left, right), width).errors <==> Reported(Key(Ranged, width), Range(left, right), e)
  {
    SimpleDenotes(left);
    SimpleDenotes(right);
    PartsReadAre(Key(Ranged, width), Range(left, right), left, right);
    BetweenBounds(Denoted(left), Denoted(right));
    if Denoted(left).Some? && Denoted(right).Some? {
      var low, high := Denoted(left).value, Denoted(right).value;
      ReadHasNoErrors(left);
      ReadHasNoErrors(right);
      BoundsReport(low, high, width, e);
      var invalid := if low > high then [InvalidRange] else [];
      assert EmitRange(Range(left, right), width).errors ==
        if low == 0 && high == Pow2(width) - 1 then invalid
        else invalid + Repr(low, width).errors + Repr(high, width).errors;
    }
  }

  lemma ReadHasNoErrors(k: KeyExpr)
    requires Denoted(k).Some?
    ensures SimpleValue(k).result == Denoted(k) && !Unreadable(Uncast(k)) && !Uncast(k).PlainEnumMember?
  {
    SimpleDenotes(k);
  }

  /** An error is reported of a key exactly when the expression calls for it. */
  lemma KeyReports(key: Key, k: KeyExpr, e: Error)
    requires Sane(key, k)
    ensures e in Emit(key, k).errors <==> Reported(key, k, e)
  {
    match key.kind
    case Lpm => LpmReports(k, key.width, e);
    case Ternary => TernaryReports(k, key.width, e);
    case Ranged => RangeReports(k, key.width, e);
    case Unsupported =>
    case _ => ValueReports(key, k, e);
  }

  lemma ValueReports(key: Key, k: KeyExpr, e: Error)
    requires Sane(key, k) && (key.kind == Exact || key.kind == Optional)
    ensures e in Emit(key, k).errors <==> Reported(key, k, e)
  {
    SimpleReports(k, key.width, e);
    if key.kind == Exact || !k.Default? { PartsReadAre(key, k, k, k); }
  }

  // ---------------------------------------------------------------- what is accepted

  predicate Readable(k: KeyExpr) {
    !Unreadable(Uncast(k)) && !Uncast(k).PlainEnumMember?
  }

  /** A number that is not negative, or a member that does not resolve. */
  predicate PlainValue(k: KeyExpr) {
    Readable(k) && (Denoted(k).Some? ==> Denoted(k).value >= 0)
  }

  ghost predicate AcceptedLpmMask(left: KeyExpr, right: KeyExpr, width: nat) {
    && Readable(left)
    && (Denoted(left).Some? && right.Constant? && right.value >= 0 ==> TakenForPrefix(right.value, width))
  }

  predicate AcceptedMask(left: KeyExpr, right: KeyExpr) {
    && Readable(left) && Readable(right)
    && (Denoted(left).Some? && Denoted(right).Some? ==> Denoted(right).value >= 0)
  }

  predicate AcceptedRange(left: KeyExpr, right: KeyExpr) {
    && Readable(left) && Readable(right)
    && (Denoted(left).Some? && Denoted(right).Some? ==> 0 <= Denoted(left).value <= Denoted(right).value)
  }

  /** A key expression that is translated without an error. */
  ghost predicate AcceptedKey(key: Key, k: KeyExpr) {
    match key.kind
    case Exact => PlainValue(k)
    case Optional => k.Default? || PlainValue(k)
    case Lpm => k.Default? || if k.Mask? then AcceptedLpmMask(k.left, k.right, key.width) else PlainValue(k)
    case Ternary => k.Default? || if k.Mask? then AcceptedMask(k.left, k.right) else PlainValue(k)
    case Ranged => k.Default? || if k.Range? then AcceptedRange(k.left, k.right) else PlainValue(k)
    case Unsupported => k.Default?
  }

  lemma PlainIsClean(k: KeyExpr, width: nat)
    ensures ConvertSimple(k, width).errors == [] <==> PlainValue(k)
  {
    SimpleDenotes(k);
    if Denoted(k).Some? { ReadHasNoErrors(k); }
  }

  lemma ReadableIsClean(k: KeyExpr)
    ensures SimpleValue(k).errors == [] <==> Readable(k)
    ensures SimpleValue(k).result == Denoted(k)
    ensures Denoted(k).Some? ==> Readable(k)
  {
    SimpleDenotes(k);
    if Denoted(k).Some? { ReadHasNoErrors(k); }
  }

  lemma LpmMaskIsClean(left: KeyExpr, right: KeyExpr, width: nat)
    requires Sane(Key(Lpm, width), Mask(left, right))
    ensures EmitLpm(Mask(left, right), width).errors == [] <==> AcceptedLpmMask(left, right, width)
  {
    ReadableIsClean(left);
    if Denoted(left).Some? {
      AndBounds(Denoted(left).value, right.value);
      PrefixTest(right.value, width);
    }
  }

  lemma MaskIsClean(left: KeyExpr, right: KeyExpr, width: nat)
    ensures EmitTernary(Mask(left, right), width).errors == [] <==> AcceptedMask(left, right)
  {
    ReadableIsClean(left);
    ReadableIsClean(right);
    if Denoted(left).Some? && Denoted(right).Some? && Denoted(right).value >= 0 {
      AndBounds(Denoted(left).value, Denoted(right).value);
    }
  }

  lemma RangeIsClean(left: KeyExpr, right: KeyExpr, width: nat)
    ensures EmitRange(Range(left, right), width).errors == [] <==> AcceptedRange(left, right)
  {
    ReadableIsClean(left);
    ReadableIsClean(right);
  }

  /** Nothing is reported of a key exactly if it is accepted. */
  lemma KeyIsClean(key: Key, k: KeyExpr)
    requires Sane(key, k)
    ensures Emit(key, k).errors == [] <==> AcceptedKey(key, k)
  {
    PlainIsClean(k, key.width);
    match key.kind
    case Lpm => if k.Mask? { LpmMaskIsClean(k.left, k.right, key.width); }
    case Ternary => if k.Mask? { MaskIsClean(k.left, k.right, key.width); }
    case Ranged => if k.Range? { RangeIsClean(k.left, k.right, key.width); }
    case _ =>
  }

  /** A field is emitted for a key unless it matches everything or what it needs cannot be represented; a
      range the wrong way round, and an exact key without a value, are emitted all the same. */
  ghost predicate EmitsField(key: Key, k: KeyExpr) {
    match key.kind
    case Exact => true
    case Optional => !k.Default?
    case Lpm =>
      if k.Mask? then
        && Denoted(k.left).Some? && AcceptedLpmMask(k.left, k.right, key.width)
        && k.right != Constant(0)
      else IsNatural(Denoted(k))
    case Ternary =>
      if k.Mask? then
        Denoted(k.left).Some? && IsNatural(Denoted(k.right)) && Denoted(k.right) != Some(0)
      else IsNatural(Denoted(k))
    case Ranged =>
      if k.Range? then
        && IsNatural(Denoted(k.left)) && IsNatural(Denoted(k.right))
        && !EveryValue(Denoted(k.left), Denoted(k.right), key.width)
      else IsNatural(Denoted(k))
    case Unsupported => false
  }

  predicate IsNatural(v: Option<int>) {
    v.Some? && v.value >= 0
  }

  lemma KeyEmits(key: Key, k: KeyExpr)
    requires Sane(key, k)
    ensures Emit(key, k).result.Some? <==> EmitsField(key, k)
  {
    ReadableIsClean(k);
    match key.kind
    case Lpm => if k.Mask? { LpmMaskEmits(k.left, k.right, key.width); }
    case Ternary => if k.Mask? { MaskEmits(k.left, k.right, key.width); }
    case Ranged => if k.Range? { RangeEmits(k.left, k.right, key.width); }
    case _ =>
  }

  lemma LpmMaskEmits(left: KeyExpr, right: KeyExpr, width: nat)
    requires Sane(Key(Lpm, width), Mask(left, right))
    ensures EmitLpm(Mask(left, right), width).result.Some? <==> EmitsField(Key(Lpm, width), Mask(left, right))
  {
    ReadableIsClean(left);
    if Denoted(left).Some? {
      AndBounds(Denoted(left).value, right.value);
      PrefixTest(right.value, width);
    }
  }

  lemma MaskEmits(left: KeyExpr, right: KeyExpr, width: nat)
    ensures EmitTernary(Mask(left, right), width).result.Some? <==> EmitsField(Key(Ternary, width), Mask(left, right))
  {
    ReadableIsClean(left);
    ReadableIsClean(right);
    if Denoted(left).Some? && Denoted(right).Some? && Denoted(right).value >= 0 {
      AndBounds(Denoted(left).value, Denoted(right).value);
    }
  }

  lemma RangeEmits(left: KeyExpr, right: KeyExpr, width: nat)
    ensures EmitRange(Range(left, right), width).result.Some? <==> EmitsField(Key(Ranged, width), Range(left, right))
  {
    ReadableIsClean(left);
    ReadableIsClean(right);
  }

  predicate AcceptedArgument(a: Argument) {
    Denoted(a.expr).Some? && Denoted(a.expr).value >= 0
  }

  lemma ArgumentIsClean(a: Argument)
    ensures ArgumentRepr(a).errors == [] <==> AcceptedArgument(a)
  {
    SimpleDenotes(a.expr);
  }

  predicate AcceptedAction(a: ActionRef) {
    a.Call? && forall i | 0 <= i < |a.args| :: AcceptedArgument(a.args[i])
  }

  lemma {:induction false} ParamsAreClean(args: seq<Argument>)
    ensures Params(args).errors == [] <==> forall i | 0 <= i < |args| :: AcceptedArgument(args[i])
  {
    if args != [] {
      var n := |args| - 1;
      ParamsAreClean(args[..n]);
      ArgumentIsClean(args[n]);
      assert |Params(args).errors| == |Params(args[..n]).errors| + |ArgumentRepr(args[n]).errors|;
      assert forall i | 0 <= i < n :: args[..n][i] == args[i];
    }
  }

  predicate HasPriority(e: Entry) {
    e.priority.Some? && e.priority.value.Constant?
  }

  /** Keys, action and, where the table needs one and does not number its entries, priority. */
  ghost predicate AcceptedEntry(t: Table, e: Entry) {
    && (forall i | 0 <= i < |e.keys| && i < |t.keys| :: AcceptedKey(t.keys[i], e.keys[i]))
    && AcceptedAction(e.action)
    && (NeedsPriority(t.keys) && !t.isConst ==> HasPriority(e))
  }

  ghost predicate AcceptedTable(t: Table) {
    forall i | 0 <= i < |t.entries| :: AcceptedEntry(t, t.entries[i])
  }

  function ErrorCount(outs: seq<Outcome<Option<Field>>>, n: nat): nat
    requires n <= |outs|
  {
    if n == 0 then 0 else ErrorCount(outs, n - 1) + |outs[n - 1].errors|
  }

  lemma {:induction false} GatherCounts(keys: seq<Key>, outs: seq<Outcome<Option<Field>>>, n: nat)
    requires n <= |outs| <= |keys|
    ensures |Gather(keys, outs, n).errors| == ErrorCount(outs, n)
  {
    if n > 0 {
      var before := Gather(keys, outs, n - 1).errors;
      assert |Gather(keys, outs, n).errors| == |before| + |outs[n - 1].errors|;
      GatherCounts(keys, outs, n - 1);
    }
  }

  lemma {:induction false} CountIsZero(outs: seq<Outcome<Option<Field>>>, n: nat)
    requires n <= |outs|
    ensures ErrorCount(outs, n) == 0 <==> forall i | 0 <= i < n :: |outs[i].errors| == 0
  {
    if n > 0 { CountIsZero(outs, n - 1); }
  }

  lemma GatherIsClean(keys: seq<Key>, outs: seq<Outcome<Option<Field>>>, n: nat)
    requires n <= |outs| <= |keys|
    ensures Gather(keys, outs, n).errors == [] <==> forall i | 0 <= i < n :: outs[i].errors == []
  {
    GatherCounts(keys, outs, n);
    CountIsZero(outs, n);
  }

  lemma MatchKeyIsClean(keys: seq<Key>, ks: seq<KeyExpr>)
    requires SaneKeys(keys, ks)
    ensures MatchKey(keys, ks).errors == [] <==> forall i | 0 <= i < |ks| :: AcceptedKey(keys[i], ks[i])
  {
    var outs := Emissions(keys, ks);
    GatherIsClean(keys, outs, |ks|);
    forall i | 0 <= i < |ks| ensures outs[i].errors == [] <==> AcceptedKey(keys[i], ks[i]) {
      KeyIsClean(keys[i], ks[i]);
    }
  }

  lemma ImageIsClean(t: Table, i: nat)
    requires SaneTable(t) && i < |t.entries|
    ensures Image(t, i).errors == [] <==> AcceptedEntry(t, t.entries[i])
    ensures Image(t, i).result.1 <==> NeedsPriority(t.keys) && !t.isConst && !HasPriority(t.entries[i])
  {
    var e := t.entries[i];
    MatchKeyIsClean(t.keys, e.keys);
    if e.action.Call? { ParamsAreClean(e.action.args); }
    assert |Bare(t, e).errors| == |MatchKey(t.keys, e.keys).errors| + |EmitAction(e.action).errors|;
    assert |Image(t, i).errors| == |Bare(t, e).errors| + |PriorityOf(t, e, i).errors|;
  }

  /** How many entries are translated: all, or those up to the first that stops the translation. */
  lemma {:induction false} CollectsUpTo(images: seq<Outcome<(Update, bool)>>)
    ensures var (us, stopped) := Collect(images).result;
            && |us| <= |images|
            && (forall i | 0 <= i < |us| :: us[i] == images[i].result.0 && (images[i].result.1 <==> stopped && i == |us| - 1))
            && (if stopped then us != [] else |us| == |images|)
            && (Collect(images).errors == [] <==> forall i | 0 <= i < |us| :: images[i].errors == [])
  {
    if images != [] {
      var n := |images| - 1;
      CollectsUpTo(images[..n]);
      var before := Collect(images[..n]);
      assert forall i | 0 <= i < n :: images[..n][i] == images[i];
      if !before.result.1 {
        assert |Collect(images).errors| == |before.errors| + |images[n].errors|;
      }
    }
  }

  /** There is an update for each entry up to the first that lacks a priority it needs, whatever else is
      reported. */
  lemma ConvertsUpTo(t: Table)
    requires SaneTable(t)
    ensures var us := Convert(t).result;
            && |us| <= |t.entries|
            && (forall i | 0 <= i < |us| :: us[i] == Image(t, i).result.0)
            && (NeedsPriority(t.keys) && !t.isConst ==> forall i | 0 <= i < |us| - 1 :: HasPriority(t.entries[i]))
            && (|us| < |t.entries| ==>
                  NeedsPriority(t.keys) && !t.isConst && us != [] && !HasPriority(t.entries[|us| - 1]))
  {
    var images := Images(t);
    CollectsUpTo(images);
    forall i | 0 <= i < |images|
      ensures images[i] == Image(t, i)
      ensures images[i].result.1 <==> NeedsPriority(t.keys) && !t.isConst && !HasPriority(t.entries[i])
    {
      ImageIsClean(t, i);
    }
    var n := |Collect(images).result.0|;
    if n < |images| { assert images[n - 1].result.1; }
  }

  /** A table is translated without an error exactly if all its entries are accepted. */
  lemma ConvertIsClean(t: Table)
    requires SaneTable(t)
    ensures Convert(t).errors == [] <==> AcceptedTable(t)
  {
    var images := Images(t);
    CollectsUpTo(images);
    forall i | 0 <= i < |images|
      ensures images[i].errors == [] <==> AcceptedEntry(t, t.entries[i])
      ensures images[i].result.1 ==> images[i].errors != []
    {
      ImageIsClean(t, i);
    }
    var n := |Collect(images).result.0|;
    if Collect(images).errors == [] && n > 0 { assert images[n - 1].errors == []; }
  }

  // ---------------------------------------------------------------- what is reported of an entry

  /** When each error is reported of an argument. */
  ghost predicate ArgumentReported(a: Argument, e: Error) {
    match Denoted(a.expr)
    case None => e == UnsupportedArgument
    case Some(v) => v < 0 && e == NegativeValue(v)
  }

  lemma ArgumentReports(a: Argument, e: Error)
    ensures e in ArgumentRepr(a).errors <==> ArgumentReported(a, e)
    ensures ArgumentRepr(a).result.Some? <==> AcceptedArgument(a)
  {
    SimpleDenotes(a.expr);
  }

  ghost predicate SomeArgumentReported(args: seq<Argument>, e: Error) {
    exists i :: 0 <= i < |args| && ArgumentReported(args[i], e)
  }

  lemma {:induction false} ParamsReport(args: seq<Argument>, e: Error)
    ensures e in Params(args).errors <==> SomeArgumentReported(args, e)
  {
    if args != [] {
      var n := |args| - 1;
      ParamsReport(args[..n], e);
      ArgumentReports(args[n], e);
      if i :| 0 <= i < |args| && ArgumentReported(args[i], e) {
        if i < n { assert args[..n][i] == args[i]; }
      }
      if i :| 0 <= i < n && ArgumentReported(args[..n][i], e) { assert args[i] == args[..n][i]; }
    }
  }

  ghost predicate ActionReported(a: ActionRef, e: Error) {
    match a
    case NotACall => e == InvalidAction
    case Call(_, args) => SomeArgumentReported(args, e)
  }

  ghost predicate SomeKeyReported(keys: seq<Key>, ks: seq<KeyExpr>, e: Error)
    requires SaneKeys(keys, ks)
  {
    exists i :: 0 <= i < |ks| && Reported(keys[i], ks[i], e)
  }

  lemma {:induction false} GatherHas(keys: seq<Key>, outs: seq<Outcome<Option<Field>>>, n: nat, e: Error)
    requires n <= |outs| <= |keys|
    ensures e in Gather(keys, outs, n).errors <==> exists i :: 0 <= i < n && e in outs[i].errors
  {
    if n > 0 {
      GatherHas(keys, outs, n - 1, e);
      InBoth(Gather(keys, outs, n - 1).errors, outs[n - 1].errors, e);
    }
  }

  lemma MatchKeyReports(keys: seq<Key>, ks: seq<KeyExpr>, e: Error)
    requires SaneKeys(keys, ks)
    ensures e in MatchKey(keys, ks).errors <==> SomeKeyReported(keys, ks, e)
  {
    var outs := Emissions(keys, ks);
    GatherHas(keys, outs, |ks|, e);
    forall i | 0 <= i < |ks| ensures e in outs[i].errors <==> Reported(keys[i], ks[i], e) {
      KeyReports(keys[i], ks[i], e);
    }
  }

  lemma InBoth(a: seq<Error>, b: seq<Error>, e: Error)
    ensures e in a + b <==> e in a || e in b
  {
  }

  /** What is reported of an entry is what is reported of its keys and of its action, and a missing
      priority. */
  lemma EntryReports(t: Table, i: nat, e: Error)
    requires SaneTable(t) && i < |t.entries|
    ensures var entry := t.entries[i];
            e in Image(t, i).errors <==>
              || SomeKeyReported(t.keys, entry.keys, e)
              || ActionReported(entry.action, e)
              || (e == NoPriority && NeedsPriority(t.keys) && !t.isConst && !HasPriority(entry))
  {
    var entry := t.entries[i];
    MatchKeyReports(t.keys, entry.keys, e);
    if entry.action.Call? { ParamsReport(entry.action.args, e); }
    InBoth(MatchKey(t.keys, entry.keys).errors, EmitAction(entry.action).errors, e);
    InBoth(Bare(t, entry).errors, PriorityOf(t, entry, i).errors, e);
  }
}
