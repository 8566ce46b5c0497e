/** Table entries of a P4 program and their translation to P4Runtime, as functions. */
module Entries {
  import opened Wrappers
  import opened BigInt
  import opened Bytestrings

  datatype KeyExpr =
    | Constant(value: int)
    | BoolLiteral(truth: bool)
    | SerEnumMember(value: int)
    | PlainEnumMember
    | UnresolvedMember
    | Cast(expr: KeyExpr)
    | Mask(left: KeyExpr, right: KeyExpr)
    | Range(left: KeyExpr, right: KeyExpr)
    | Default
    | OtherExpr

  datatype MatchKind = Exact | Lpm | Ternary | Ranged | Optional | Unsupported
  datatype Key = Key(kind: MatchKind, width: nat)
  datatype Argument = Argument(expr: KeyExpr, width: nat)
  datatype ActionRef = Call(id: nat, args: seq<Argument>) | NotACall
  datatype Entry = Entry(keys: seq<KeyExpr>, action: ActionRef, priority: Option<KeyExpr>, isConst: bool)
  datatype Table = Table(id: nat, keys: seq<Key>, entries: seq<Entry>, isConst: bool)

  datatype Error =
    | InvalidKey | InvalidMember | InvalidMask | InvalidRange | UnsupportedMatch
    | NegativeValue(value: int) | InvalidAction | UnsupportedArgument | NoPriority

  datatype Field =
    | ExactField(value: Bytes)
    | LpmField(value: Bytes, prefixLen: int)
    | TernaryField(value: Bytes, mask: Bytes)
    | RangeField(low: Bytes, high: Bytes)
    | OptionalField(value: Bytes)

  datatype FieldMatch = FieldMatch(id: nat, field: Field)
  /** A parameter whose argument could not be translated stays without a value. */
  datatype Param = Param(id: nat, value: Option<Bytes>)
  datatype Action = Action(id: nat, params: seq<Param>)
  /** An update of the write request; priority 0 stands for none. */
  datatype Update = Update(table: nat, matches: seq<FieldMatch>, action: Option<Action>, isConst: bool, priority: int)

  /** What translating something gives, and what is reported. */
  datatype Outcome<+T> = Outcome(result: T, errors: seq<Error>)

  // ---------------------------------------------------------------- values

  function SimpleValue(k: KeyExpr): (r: Outcome<Option<int>>)
    ensures r.result.Some? ==> r.errors == []
  {
    match k
    case Constant(v) => Outcome(Some(v), [])
    case BoolLiteral(b) => Outcome(Some(if b then 1 else 0), [])
    case SerEnumMember(v) => Outcome(Some(v), [])
    case PlainEnumMember => Outcome(None, [InvalidMember])
    case UnresolvedMember => Outcome(None, [])
    case Cast(e) => SimpleValue(e)
    case _ => Outcome(None, [InvalidKey])
  }

  function Repr(value: int, width: nat): Outcome<Option<Bytes>> {
    Outcome(StringRepr(value, width), if value < 0 then [NegativeValue(value)] else [])
  }

  function ConvertSimple(k: KeyExpr, width: nat): Outcome<Option<Bytes>> {
    var v := SimpleValue(k);
    if v.result.None? then Outcome(None, v.errors) else Repr(v.result.value, width)
  }

  /** What the source's checks demand of a number it represents: negative ones are only reported. */
  predicate Representable(value: int, width: nat) {
    value < 0 || (0 < width && value < Pow2(width))
  }

  predicate Fits(k: KeyExpr, width: nat) {
    SimpleValue(k).result.Some? ==> Representable(SimpleValue(k).result.value, width)
  }

  /** The source's checks, for the values that come to be represented: the mask of a longest-prefix
      match is a literal, and what is left under a mask fits. */
  predicate Sane(key: Key, k: KeyExpr) {
    match key.kind
    case Lpm => if k.Mask? then SaneLpmMask(k.left, k.right, key.width) else Fits(k, key.width)
    case Ternary =>
      if k.Mask? then SaneTernaryMask(SimpleValue(k.left).result, SimpleValue(k.right).result, key.width)
      else k.Default? || (0 < key.width && Fits(k, key.width))
    case Ranged =>
      if k.Range? then SaneRange(SimpleValue(k.left).result, SimpleValue(k.right).result, key.width)
      else Fits(k, key.width)
    case Unsupported => true
    case _ => Fits(k, key.width)
  }

  predicate SaneLpmMask(left: KeyExpr, right: KeyExpr, width: nat) {
    var value := SimpleValue(left).result;
    value.Some? ==>
      && right.Constant? && right.value >= 0
      && (right.value != 0 && ZerosBelow(right.value, width) + Popcount(right.value) == width ==>
            Representable(And(value.value, right.value), width))
  }

  predicate SaneTernaryMask(value: Option<int>, mask: Option<int>, width: nat) {
    value.Some? && mask.Some? && mask.value != 0 ==>
      Representable(And(value.value, mask.value), width) && Representable(mask.value, width)
  }

  predicate SaneRange(low: Option<int>, high: Option<int>, width: nat) {
    low.Some? && high.Some? && !(low.value == 0 && high.value == Pow2(width) - 1) ==>
      Representable(low.value, width) && Representable(high.value, width)
  }

  // ---------------------------------------------------------------- one key

  function EmitLpm(k: KeyExpr, width: nat): Outcome<Option<Field>>
    requires Sane(Key(Lpm, width), k)
  {
    if k.Default? then Outcome(None, [])
    else if k.Mask? then
      var value := SimpleValue(k.left);
      if value.result.None? then Outcome(None, value.errors)
      else
      var mask: nat := k.right.value;
      var zeros := ZerosBelow(mask, width);
      if zeros + Popcount(mask) != width then Outcome(None, [InvalidMask])
      else if mask == 0 then Outcome(None, [])
      else
        var bytes := Repr(And(value.result.value, mask), width);
        if bytes.result.None? then Outcome(None, bytes.errors)
        else Outcome(Some(LpmField(bytes.result.value, width - zeros)), [])
    else
      var bytes := ConvertSimple(k, width);
      if bytes.result.None? then Outcome(None, bytes.errors)
      else Outcome(Some(LpmField(bytes.result.value, width)), [])
  }

  function EmitTernary(k: KeyExpr, width: nat): Outcome<Option<Field>> {
    if k.Default? then Outcome(None, [])
    else if k.Mask? then
      var value, mask := SimpleValue(k.left), SimpleValue(k.right);
      if value.result.None? || mask.result.None? then Outcome(None, value.errors + mask.errors)
      else if mask.result.value == 0 then Outcome(None, [])
      else
        var v, m := Repr(And(value.result.value, mask.result.value), width), Repr(mask.result.value, width);
        if v.result.None? || m.result.None? then Outcome(None, v.errors + m.errors)
        else Outcome(Some(TernaryField(v.result.value, m.result.value)), [])
    else
      var v := ConvertSimple(k, width);
      if v.result.None? then Outcome(None, v.errors)
      else Outcome(Some(TernaryField(v.result.value, BigEndian(Pow2(width) - 1, BytesFor(width)))), [])
  }

  /** A range the wrong way round is reported and emitted all the same. */
  function EmitRange(k: KeyExpr, width: nat): Outcome<Option<Field>> {
    if k.Default? then Outcome(None, [])
    else if k.Range? then
      var start, end := SimpleValue(k.left), SimpleValue(k.right);
      if start.result.None? || end.result.None? then Outcome(None, start.errors + end.errors)
      else
        var invalid := if start.result.value > end.result.value then [InvalidRange] else [];
        if start.result.value == 0 && end.result.value == Pow2(width) - 1 then Outcome(None, invalid)
        else
          var low, high := Repr(start.result.value, width), Repr(end.result.value, width);
          if low.result.None? || high.result.None? then Outcome(None, invalid + low.errors + high.errors)
          else Outcome(Some(RangeField(low.result.value, high.result.value)), invalid)
    else
      var v := ConvertSimple(k, width);
      if v.result.None? then Outcome(None, v.errors)
      else Outcome(Some(RangeField(v.result.value, v.result.value)), [])
  }

  /** Exact and optional matches are added before the value is known to be one. */
  function EmitExact(k: KeyExpr, width: nat): Outcome<Option<Field>> {
    var v := ConvertSimple(k, width);
    Outcome(Some(ExactField(if v.result.Some? then v.result.value else [])), v.errors)
  }

  function EmitOptional(k: KeyExpr, width: nat): Outcome<Option<Field>> {
    if k.Default? then Outcome(None, [])
    else
      var v := ConvertSimple(k, width);
      Outcome(Some(OptionalField(if v.result.Some? then v.result.value else [])), v.errors)
  }

  function Emit(key: Key, k: KeyExpr): Outcome<Option<Field>>
    requires Sane(key, k)
  {
    match key.kind
    case Exact => EmitExact(k, key.width)
    case Lpm => EmitLpm(k, key.width)
    case Ternary => EmitTernary(k, key.width)
    case Ranged => EmitRange(k, key.width)
    case Optional => EmitOptional(k, key.width)
    case Unsupported => Outcome(None, if k.Default? then [] else [UnsupportedMatch])
  }

  // ---------------------------------------------------------------- entries

  predicate SaneKeys(keys: seq<Key>, ks: seq<KeyExpr>) {
    |ks| <= |keys| && forall i | 0 <= i < |ks| :: Sane(keys[i], ks[i])
  }

  function Numbered(id: nat, f: Option<Field>): seq<FieldMatch> {
    if f.Some? then [FieldMatch(id, f.value)] else []
  }

  /** What the keys of an entry give one by one. */
  function Emissions(keys: seq<Key>, ks: seq<KeyExpr>): (r: seq<Outcome<Option<Field>>>)
    requires SaneKeys(keys, ks)
    ensures |r| == |ks|
  {
    seq(|ks|, i requires SaneKeys(keys, ks) && 0 <= i < |ks| => Emit(keys[i], ks[i]))
  }

  /** The matches of the first `n` keys. Keys that are not supported do not use up an id. */
  function Gather(keys: seq<Key>, outs: seq<Outcome<Option<Field>>>, n: nat): Outcome<seq<FieldMatch>>
    requires n <= |outs| <= |keys|
  {
    if n == 0 then Outcome([], [])
    else
      var before, here := Gather(keys, outs, n - 1), outs[n - 1];
      Outcome(before.result + Numbered(FieldId(keys, n - 1), here.result), before.errors + here.errors)
  }

  function MatchKey(keys: seq<Key>, ks: seq<KeyExpr>): Outcome<seq<FieldMatch>>
    requires SaneKeys(keys, ks)
  {
    Gather(keys, Emissions(keys, ks), |ks|)
  }

  /** The id the converter has reached when it comes to key `i`. */
  function FieldId(keys: seq<Key>, i: nat): nat
    requires i <= |keys|
  {
    if i == 0 then 1 else FieldId(keys, i - 1) + if keys[i - 1].kind == Unsupported then 0 else 1
  }

  function Uncast(k: KeyExpr): KeyExpr {
    if k.Cast? then Uncast(k.expr) else k
  }

  function ArgumentRepr(a: Argument): Outcome<Option<Bytes>> {
    match Uncast(a.expr)
    case Constant(v) => Repr(v, a.width)
    case BoolLiteral(b) => Repr(if b then 1 else 0, a.width)
    case SerEnumMember(v) => Repr(v, a.width)
    case _ => Outcome(None, [UnsupportedArgument])
  }

  function Params(args: seq<Argument>): Outcome<seq<Param>> {
    if args == [] then Outcome([], [])
    else
      var n := |args| - 1;
      var before, here := Params(args[..n]), ArgumentRepr(args[n]);
      Outcome(before.result + [Param(n + 1, here.result)], before.errors + here.errors)
  }

  function EmitAction(a: ActionRef): Outcome<Option<Action>> {
    match a
    case NotACall => Outcome(None, [InvalidAction])
    case Call(id, args) => Outcome(Some(Action(id, Params(args).result)), Params(args).errors)
  }

  predicate NeedsPriority(keys: seq<Key>) {
    exists i :: 0 <= i < |keys| && keys[i].kind in {Ternary, Ranged, Optional}
  }

  predicate SaneArgument(a: Argument) {
    Fits(a.expr, a.width)
  }

  predicate SaneEntry(t: Table, e: Entry) {
    && SaneKeys(t.keys, e.keys)
    && (e.action.Call? ==> forall i | 0 <= i < |e.action.args| :: SaneArgument(e.action.args[i]))
    && (NeedsPriority(t.keys) && !t.isConst ==> e.priority.Some?)
  }

  predicate SaneTable(t: Table) {
    forall i | 0 <= i < |t.entries| :: SaneEntry(t, t.entries[i])
  }

  /** An entry's update but for its priority. */
  function Bare(t: Table, e: Entry): Outcome<Update>
    requires SaneEntry(t, e)
  {
    var matches, action := MatchKey(t.keys, e.keys), EmitAction(e.action);
    Outcome(Update(t.id, matches.result, action.result, t.isConst || e.isConst, 0), matches.errors + action.errors)
  }

  /** A constant table numbers its `n` entries downwards; otherwise each must bring its priority. */
  function PriorityOf(t: Table, e: Entry, i: nat): Outcome<int>
    requires SaneEntry(t, e)
  {
    if !NeedsPriority(t.keys) then Outcome(0, [])
    else if t.isConst then Outcome(|t.entries| - i, [])
    else if e.priority.value.Constant? then Outcome(e.priority.value.value, [])
    else Outcome(0, [NoPriority])
  }

  /** The update for an entry, and whether nothing is translated after it. */
  function Image(t: Table, i: nat): Outcome<(Update, bool)>
    requires SaneTable(t) && i < |t.entries|
  {
    var bare, priority := Bare(t, t.entries[i]), PriorityOf(t, t.entries[i], i);
    Outcome((bare.result.(priority := priority.result), priority.errors != []), bare.errors + priority.errors)
  }

  function Images(t: Table): (r: seq<Outcome<(Update, bool)>>)
    requires SaneTable(t)
    ensures |r| == |t.entries|
  {
    seq(|t.entries|, i requires SaneTable(t) && 0 <= i < |t.entries| => Image(t, i))
  }

  /** All updates up to the first that stops the translation, and all that is reported. */
  function Collect(images: seq<Outcome<(Update, bool)>>): Outcome<(seq<Update>, bool)> {
    if images == [] then Outcome(([], false), [])
    else
      var n := |images| - 1;
      var before := Collect(images[..n]);
      if before.result.1 then before
      else Outcome((before.result.0 + [images[n].result.0], images[n].result.1), before.errors + images[n].errors)
  }

  /** The write request for a table. */
  function Convert(t: Table): Outcome<seq<Update>>
    requires SaneTable(t)
  {
    var all := Collect(Images(t));
    Outcome(all.result.0, all.errors)
  }
}
