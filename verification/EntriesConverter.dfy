/** `P4RuntimeEntriesConverter`: appends to the write request, one entry and one key at a time. */
module EntriesConversion {
  import opened Wrappers
  import opened BigInt
  import opened Bytestrings
  import opened Entries

  /** More matches for the update being built. */
  function Extended(us: seq<Update>, ms: seq<FieldMatch>): seq<Update>
    requires us != []
  {
    var n := |us| - 1;
    us[n := us[n].(matches := us[n].matches + ms)]
  }

  lemma ExtendedTwice(us: seq<Update>, a: seq<FieldMatch>, b: seq<FieldMatch>)
    requires us != []
    ensures Extended(us, []) == us && Extended(Extended(us, a), b) == Extended(us, a + b)
  {
    var n := |us| - 1;
    assert us[n].matches + [] == us[n].matches;
    assert us[n].matches + a + b == us[n].matches + (a + b);
  }

  lemma Grouped(a: seq<Error>, b: seq<Error>, c: seq<Error>)
    ensures a + b + c == a + (b + c)
  {
  }

  lemma GroupedUpdates(a: seq<Update>, b: seq<Update>, c: seq<Update>)
    ensures a + b + c == a + (b + c)
  {
  }

  class EntriesConverter {
    var updates: seq<Update>
    var errors: seq<Error>

    constructor ()
      ensures updates == [] && errors == []
    {
      updates := [];
      errors := [];
    }

    method Report(e: Error)
      modifies this`errors
      ensures errors == old(errors) + [e]
    {
      errors := errors + [e];
    }

    method Represent(value: int, width: nat) returns (r: Option<Bytes>)
      requires Representable(value, width)
      modifies this`errors
      ensures r == Repr(value, width).result && errors == old(errors) + Repr(value, width).errors
    {
      r := StringReprConstant(value, width);
      if r.None? { Report(NegativeValue(value)); }
    }

    method SimpleKeyExpressionValue(k: KeyExpr) returns (r: Option<int>)
      modifies this`errors
      ensures r == SimpleValue(k).result && errors == old(errors) + SimpleValue(k).errors
    {
      match k {
        case Constant(v) => r := Some(v);
        case BoolLiteral(b) => r := Some(if b then 1 else 0);
        case SerEnumMember(v) => r := Some(v);
        case UnresolvedMember => r := None;
        case Cast(e) => r := SimpleKeyExpressionValue(e);
        case PlainEnumMember => Report(InvalidMember); r := None;
        case _ => Report(InvalidKey); r := None;
      }
    }

    method ConvertSimpleKeyExpression(k: KeyExpr, width: nat) returns (r: Option<Bytes>)
      requires Fits(k, width)
      modifies this`errors
      ensures r == ConvertSimple(k, width).result && errors == old(errors) + ConvertSimple(k, width).errors
    {
      match k {
        case Constant(v) => r := Represent(v, width);
        case BoolLiteral(b) => r := Represent(if b then 1 else 0, width);
        case SerEnumMember(v) => r := Represent(v, width);
        case UnresolvedMember => r := None;
        case Cast(e) => r := ConvertSimpleKeyExpression(e, width);
        case PlainEnumMember => Report(InvalidMember); r := None;
        case _ => Report(InvalidKey); r := None;
      }
    }

    method AddMatch(id: nat, field: Field)
      requires updates != []
      modifies this`updates
      ensures updates == Extended(old(updates), [FieldMatch(id, field)])
    {
      updates := Extended(updates, [FieldMatch(id, field)]);
    }

    /** Fills in the match added last. */
    method SetMatch(id: nat, field: Field, ghost before: seq<Update>)
      requires before != [] && exists empty :: updates == Extended(before, [FieldMatch(id, empty)])
      modifies this`updates
      ensures updates == Extended(before, [FieldMatch(id, field)])
    {
      var n := |updates| - 1;
      var matches := updates[n].matches;
      updates := updates[n := updates[n].(matches := matches[..|matches| - 1] + [FieldMatch(id, field)])];
      assert updates[n].matches == before[n].matches + [FieldMatch(id, field)];
    }

    method AddExact(id: nat, k: KeyExpr, width: nat)
      requires updates != [] && Sane(Key(Exact, width), k)
      modifies this
      ensures updates == Extended(old(updates), Numbered(id, EmitExact(k, width).result))
      ensures errors == old(errors) + EmitExact(k, width).errors
    {
      AddMatch(id, ExactField([]));
      var value := ConvertSimpleKeyExpression(k, width);
      if value.None? { return; }
      SetMatch(id, ExactField(value.value), old(updates));
    }

    method AddLpm(id: nat, k: KeyExpr, width: nat)
      requires updates != [] && Sane(Key(Lpm, width), k)
      modifies this
      ensures updates == Extended(old(updates), Numbered(id, EmitLpm(k, width).result))
      ensures errors == old(errors) + EmitLpm(k, width).errors
    {
      ExtendedTwice(updates, [], []);
      if k.Default? { return; }
      var prefixLen, bytes;
      if k.Mask? {
        var value := SimpleKeyExpressionValue(k.left);
        if value.None? { return; }
        var mask := k.right.value;
        var zeros := ZerosBelow(mask, width);
        var ones := Bitcount(mask);
        if zeros + ones != width {
          Report(InvalidMask);
          return;
        }
        if mask == 0 { return; }
        prefixLen := width - zeros;
        bytes := Represent(And(value.value, mask), width);
      } else {
        prefixLen := width;
        bytes := ConvertSimpleKeyExpression(k, width);
      }
      if bytes.None? { return; }
      AddMatch(id, LpmField(bytes.value, prefixLen));
    }

    method AddTernary(id: nat, k: KeyExpr, width: nat)
      requires updates != [] && Sane(Key(Ternary, width), k)
      modifies this
      ensures updates == Extended(old(updates), Numbered(id, EmitTernary(k, width).result))
      ensures errors == old(errors) + EmitTernary(k, width).errors
    {
      ExtendedTwice(updates, [], []);
      if k.Default? { return; }
      var bytes, maskBytes;
      if k.Mask? {
        var value := SimpleKeyExpressionValue(k.left);
        var mask := SimpleKeyExpressionValue(k.right);
        if value.None? || mask.None? { return; }
        assert errors == old(errors);
        if mask.value == 0 { return; }
        bytes := Represent(And(value.value, mask.value), width);
        maskBytes := Represent(mask.value, width);
        Grouped(old(errors), Repr(And(value.value, mask.value), width).errors, Repr(mask.value, width).errors);
      } else {
        bytes := ConvertSimpleKeyExpression(k, width);
        maskBytes := Represent(Pow2(width) - 1, width);
      }
      if bytes.None? || maskBytes.None? { return; }
      AddMatch(id, TernaryField(bytes.value, maskBytes.value));
    }

    method AddRange(id: nat, k: KeyExpr, width: nat)
      requires updates != [] && Sane(Key(Ranged, width), k)
      modifies this
      ensures updates == Extended(old(updates), Numbered(id, EmitRange(k, width).result))
      ensures errors == old(errors) + EmitRange(k, width).errors
    {
      ExtendedTwice(updates, [], []);
      if k.Default? { return; }
      var low, high;
      if k.Range? {
        var start := SimpleKeyExpressionValue(k.left);
        var end := SimpleKeyExpressionValue(k.right);
        if start.None? || end.None? { return; }
        var maxValue := Pow2(width) - 1;
        assert errors == old(errors);
        ghost var invalid := if start.value > end.value then [InvalidRange] else [];
        if start.value > end.value { Report(InvalidRange); }
        assert errors == old(errors) + invalid;
        if start.value == 0 && end.value == maxValue { return; }
        low := Represent(start.value, width);
        high := Represent(end.value, width);
        Grouped(old(errors), invalid, Repr(start.value, width).errors);
        Grouped(old(errors), invalid + Repr(start.value, width).errors, Repr(end.value, width).errors);
      } else {
        low := ConvertSimpleKeyExpression(k, width);
        high := low;
      }
      if low.None? || high.None? { return; }
      AddMatch(id, RangeField(low.value, high.value));
    }

    method AddOptional(id: nat, k: KeyExpr, width: nat)
      requires updates != [] && Sane(Key(Optional, width), k)
      modifies this
      ensures updates == Extended(old(updates), Numbered(id, EmitOptional(k, width).result))
      ensures errors == old(errors) + EmitOptional(k, width).errors
    {
      ExtendedTwice(updates, [], []);
      if k.Default? { return; }
      AddMatch(id, OptionalField([]));
      var value := ConvertSimpleKeyExpression(k, width);
      if value.None? { return; }
      SetMatch(id, OptionalField(value.value), old(updates));
    }

    method AddKey(id: nat, key: Key, k: KeyExpr) returns (next: nat)
      requires updates != [] && Sane(key, k)
      modifies this
      ensures updates == Extended(old(updates), Numbered(id, Emit(key, k).result))
      ensures errors == old(errors) + Emit(key, k).errors
      ensures next == id + if key.kind == Unsupported then 0 else 1
    {
      ExtendedTwice(updates, [], []);
      next := id + 1;
      match key.kind {
        case Exact => AddExact(id, k, key.width);
        case Lpm => AddLpm(id, k, key.width);
        case Ternary => AddTernary(id, k, key.width);
        case Ranged => AddRange(id, k, key.width);
        case Optional => AddOptional(id, k, key.width);
        case Unsupported =>
          next := id;
          if !k.Default? { Report(UnsupportedMatch); }
      }
    }

    method AddMatchKey(keys: seq<Key>, ks: seq<KeyExpr>)
      requires updates != [] && SaneKeys(keys, ks)
      modifies this
      ensures updates == Extended(old(updates), MatchKey(keys, ks).result)
      ensures errors == old(errors) + MatchKey(keys, ks).errors
    {
      var fieldId := 1;
      ExtendedTwice(updates, [], []);
      ghost var outs := Emissions(keys, ks);
      for keyIndex := 0 to |ks|
        invariant fieldId == FieldId(keys, keyIndex)
        invariant updates == Extended(old(updates), Gather(keys, outs, keyIndex).result)
        invariant errors == old(errors) + Gather(keys, outs, keyIndex).errors
      {
        ghost var before, here := Gather(keys, outs, keyIndex), outs[keyIndex];
        ExtendedTwice(old(updates), before.result, Numbered(fieldId, here.result));
        fieldId := AddKey(fieldId, keys[keyIndex], ks[keyIndex]);
        Grouped(old(errors), before.errors, here.errors);
      }
    }

    method ArgumentBytes(a: Argument) returns (r: Option<Bytes>)
      requires SaneArgument(a)
      modifies this`errors
      ensures r == ArgumentRepr(a).result && errors == old(errors) + ArgumentRepr(a).errors
    {
      var e := a.expr;
      while e.Cast?
        invariant Uncast(e) == Uncast(a.expr) && Fits(e, a.width)
        decreases e
      {
        e := e.expr;
      }
      if e.Constant? || e.SerEnumMember? {
        r := Represent(e.value, a.width);
      } else if e.BoolLiteral? {
        r := Represent(if e.truth then 1 else 0, a.width);
      } else {
        Report(UnsupportedArgument);
        r := None;
      }
    }

    method AddAction(a: ActionRef)
      requires updates != []
      requires a.Call? ==> forall i | 0 <= i < |a.args| :: SaneArgument(a.args[i])
      modifies this
      ensures var n := |old(updates)| - 1; updates == old(updates)[n := old(updates)[n].(action := EmitAction(a).result)]
      ensures errors == old(errors) + EmitAction(a).errors
    {
      if a.NotACall? {
        Report(InvalidAction);
        updates := updates[|updates| - 1 := updates[|updates| - 1].(action := None)];
        return;
      }
      var params := [];
      for i := 0 to |a.args|
        invariant updates == old(updates)
        invariant params == Params(a.args[..i]).result && errors == old(errors) + Params(a.args[..i]).errors
      {
        var value := ArgumentBytes(a.args[i]);
        params := params + [Param(i + 1, value)];
        assert a.args[..i + 1][..i] == a.args[..i];
      }
      assert a.args[..|a.args|] == a.args;
      updates := updates[|updates| - 1 := updates[|updates| - 1].(action := Some(Action(a.id, params)))];
    }

    method AddEntry(t: Table, e: Entry)
      requires SaneEntry(t, e)
      modifies this
      ensures updates == old(updates) + [Bare(t, e).result] && errors == old(errors) + Bare(t, e).errors
    {
      var n := |updates|;
      updates := updates + [Update(t.id, [], None, false, 0)];
      AddMatchKey(t.keys, e.keys);
      AddAction(e.action);
      updates := updates[n := updates[n].(isConst := t.isConst || e.isConst)];
      ghost var matches, action := MatchKey(t.keys, e.keys), EmitAction(e.action);
      Grouped(old(errors), matches.errors, action.errors);
      assert [] + matches.result == matches.result;
      assert updates[n] == Update(t.id, matches.result, action.result, t.isConst || e.isConst, 0);
    }

    /** Adds the priority; there is nothing to go on with if an entry fails to give one. */
    method AddPriority(t: Table, e: Entry, entryPriority: int) returns (stops: bool)
      requires updates != [] && NeedsPriority(t.keys) && (t.isConst || e.priority.Some?)
      modifies this
      ensures stops <==> !t.isConst && !e.priority.value.Constant?
      ensures errors == old(errors) + if stops then [NoPriority] else []
      ensures var n := |old(updates)| - 1;
              var p := if t.isConst then entryPriority else if stops then old(updates)[n].priority else e.priority.value.value;
              updates == old(updates)[n := old(updates)[n].(priority := p)]
    {
      var n := |updates| - 1;
      if t.isConst {
        updates := updates[n := updates[n].(priority := entryPriority)];
      } else if e.priority.value.Constant? {
        updates := updates[n := updates[n].(priority := e.priority.value.value)];
      } else {
        Report(NoPriority);
        return true;
      }
      stops := false;
    }

    method AddNext(t: Table, i: nat, needsPriority: bool, entryPriority: int) returns (stops: bool)
      requires SaneTable(t) && i < |t.entries| && needsPriority == NeedsPriority(t.keys)
      requires needsPriority && t.isConst ==> entryPriority == |t.entries| - i
      modifies this
      ensures updates == old(updates) + [Image(t, i).result.0] && stops == Image(t, i).result.1
      ensures errors == old(errors) + Image(t, i).errors
    {
      stops := false;
      AddEntry(t, t.entries[i]);
      if needsPriority {
        stops := AddPriority(t, t.entries[i], entryPriority);
      }
    }

    method TableNeedsPriority(keys: seq<Key>) returns (r: bool)
      ensures r == NeedsPriority(keys)
      ensures r <==> exists i :: 0 <= i < |keys| && (keys[i].kind == Ternary || keys[i].kind == Ranged || keys[i].kind == Optional)
    {
      for i := 0 to |keys|
        invariant forall j | 0 <= j < i :: keys[j].kind !in {Ternary, Ranged, Optional}
      {
        if keys[i].kind in {Ternary, Ranged, Optional} { return true; }
      }
      r := false;
    }

    method AddTableEntries(t: Table)
      requires SaneTable(t)
      modifies this
      ensures updates == old(updates) + Convert(t).result && errors == old(errors) + Convert(t).errors
    {
      var entryPriority := |t.entries|;
      var needsPriority := TableNeedsPriority(t.keys);
      ghost var images := Images(t);
      for i := 0 to |t.entries|
        invariant needsPriority && t.isConst ==> entryPriority == |t.entries| - i
        invariant !Collect(images[..i]).result.1
        invariant updates == old(updates) + Collect(images[..i]).result.0
        invariant errors == old(errors) + Collect(images[..i]).errors
      {
        CollectNext(images, i);
        Grouped(old(errors), Collect(images[..i]).errors, images[i].errors);
        GroupedUpdates(old(updates), Collect(images[..i]).result.0, [images[i].result.0]);
        var stops := AddNext(t, i, needsPriority, entryPriority);
        if stops {
          CollectStops(images, i + 1);
          return;
        }
        if needsPriority && t.isConst { entryPriority := entryPriority - 1; }
      }
      assert images[..|t.entries|] == images;
    }
  }

  lemma CollectNext(images: seq<Outcome<(Update, bool)>>, i: nat)
    requires i < |images| && !Collect(images[..i]).result.1
    ensures var before := Collect(images[..i]);
            Collect(images[..i + 1]) ==
              Outcome((before.result.0 + [images[i].result.0], images[i].result.1), before.errors + images[i].errors)
  {
    assert images[..i + 1][..i] == images[..i];
  }

  lemma {:induction false} CollectStops(images: seq<Outcome<(Update, bool)>>, i: nat)
    requires i <= |images| && Collect(images[..i]).result.1
    ensures Collect(images) == Collect(images[..i])
    decreases |images|
  {
    if i < |images| {
      var n := |images| - 1;
      assert images[..n][..i] == images[..i];
      CollectStops(images[..n], i);
    } else {
      assert images[..i] == images;
    }
  }
}
