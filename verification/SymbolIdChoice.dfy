/** Which id each symbol ends up with: the one its annotation asks for unless an earlier declaration has
    it, and otherwise the first one from its hash that is free when its turn comes. */
module SymbolIdChoice {
  import opened Wrappers
  import opened SymbolIds
  import opened SymbolIdProofs

  // ---------------------------------------------------------------- annotations

  /** Request `i` is the first for its symbol; later ones are ignored. */
  predicate IsFirst(rs: seq<Request>, i: nat)
    requires i < |rs|
  {
    forall j | 0 <= j < i :: !(rs[j].kind == rs[i].kind && rs[j].name == rs[i].name)
  }

  /** `i` is the first request for a symbol and asks for this id. */
  predicate AsksAt(rs: seq<Request>, i: nat, id: Id) {
    i < |rs| && IsFirst(rs, i) && Asked(rs[i]) == Some(id)
  }

  predicate DeclaredAt(rs: seq<Request>, i: nat, kind: Kind, name: string) {
    i < |rs| && rs[i].kind == kind && rs[i].name == name
  }

  ghost predicate IsAsked(rs: seq<Request>, id: Id) {
    exists i: nat :: AsksAt(rs, i, id)
  }

  ghost predicate IsDeclared(rs: seq<Request>, kind: Kind, name: string) {
    exists i: nat :: DeclaredAt(rs, i, kind, name)
  }

  lemma DeclareNames(s: State, r: Request, kind: Kind, name: string)
    ensures name in TableOf(Declare(s, r).tables, kind) <==>
              name in TableOf(s.tables, kind) || (r.kind == kind && r.name == name)
  {
  }

  lemma DeclaredMore(rs: seq<Request>, n: nat, kind: Kind, name: string)
    requires |rs| == n + 1
    ensures IsDeclared(rs, kind, name) <==> IsDeclared(rs[..n], kind, name) || DeclaredAt(rs, n, kind, name)
  {
    if i: nat :| DeclaredAt(rs[..n], i, kind, name) { assert DeclaredAt(rs, i, kind, name); }
    if i: nat :| DeclaredAt(rs, i, kind, name) {
      if i < n { assert DeclaredAt(rs[..n], i, kind, name); }
    }
  }

  lemma {:induction false} DeclaredNames(rs: seq<Request>, kind: Kind, name: string)
    ensures name in TableOf(DeclareAll(rs).tables, kind) <==> IsDeclared(rs, kind, name)
  {
    if rs != [] {
      var n := |rs| - 1;
      DeclaredNames(rs[..n], kind, name);
      DeclaredMore(rs, n, kind, name);
      DeclareNames(DeclareAll(rs[..n]), rs[n], kind, name);
    }
  }

  lemma FirstIsNew(rs: seq<Request>, n: nat)
    requires n < |rs|
    ensures IsFirst(rs, n) <==> rs[n].name !in TableOf(DeclareAll(rs[..n]).tables, rs[n].kind)
  {
    DeclaredNames(rs[..n], rs[n].kind, rs[n].name);
    if i: nat :| DeclaredAt(rs[..n], i, rs[n].kind, rs[n].name) { assert rs[i] == rs[..n][i]; }
    if !IsFirst(rs, n) {
      var j :| 0 <= j < n && rs[j].kind == rs[n].kind && rs[j].name == rs[n].name;
      assert DeclaredAt(rs[..n], j, rs[n].kind, rs[n].name);
    }
  }

  /** The ids in use after declaring are those asked for by the first requests of symbols. */
  lemma {:induction false} TakenIsAsked(rs: seq<Request>, id: Id)
    ensures id in DeclareAll(rs).taken <==> IsAsked(rs, id)
  {
    if rs != [] {
      var n := |rs| - 1;
      var before := rs[..n];
      TakenIsAsked(before, id);
      FirstIsNew(rs, n);
      assert id in DeclareAll(rs).taken <==> id in DeclareAll(before).taken || AsksAt(rs, n, id);
      if i: nat :| AsksAt(before, i, id) { AsksInMore(rs, n, i, id); }
      if i: nat :| AsksAt(rs, i, id) {
        if i < n { AsksInMore(rs, n, i, id); }
      }
    }
  }

  lemma AsksInMore(rs: seq<Request>, n: nat, i: nat, id: Id)
    requires i < n <= |rs|
    ensures AsksAt(rs[..n], i, id) <==> AsksAt(rs, i, id)
  {
    assert forall j | 0 <= j <= i :: rs[..n][j] == rs[j];
  }

  lemma {:induction false} DeclaringExtends(rs: seq<Request>, n: nat)
    requires n <= |rs|
    ensures Extends(DeclareAll(rs[..n]), DeclareAll(rs))
    decreases |rs|
  {
    if n == |rs| {
      assert rs[..n] == rs;
    } else {
      var before := rs[..|rs| - 1];
      assert before[..n] == rs[..n];
      DeclaringExtends(before, n);
      DeclareAllKeeps(before);
      DeclareKeeps(DeclareAll(before), rs[|rs| - 1]);
    }
  }

  /** What has an id when request `n` has been dealt with, has it in the end. */
  lemma StaysToTheEnd(hash: Hash, rs: seq<Request>, n: nat, kind: Kind, name: string)
    requires n < |rs| && IdOf(DeclareAll(rs[..n + 1]).tables, kind, name) != Invalid
    ensures IdOf(Created(hash, rs).tables, kind, name) == IdOf(DeclareAll(rs[..n + 1]).tables, kind, name)
  {
    DeclaringExtends(rs, n + 1);
    CreatedIdsAreValid(hash, rs);
  }

  lemma DeclareNext(rs: seq<Request>, n: nat)
    requires n < |rs|
    ensures DeclareAll(rs[..n + 1]) == Declare(DeclareAll(rs[..n]), rs[n])
  {
    assert rs[..n + 1][..n] == rs[..n];
  }

  /** Some earlier symbol asks for the same id. */
  ghost predicate AskedEarlier(rs: seq<Request>, i: nat)
    requires i < |rs|
  {
    exists j: nat :: j < i && IsFirst(rs, j) && SameWish(rs[j], rs[i])
  }

  /** Both are of one type, and their annotations have the same lower 24 bits. */
  predicate SameWish(r: Request, q: Request) {
    && r.kind == q.kind && Acceptable(r.kind, r.annotation) && Acceptable(q.kind, q.annotation)
    && r.annotation.value % Room == q.annotation.value % Room
  }

  lemma SameIdIfSameWish(r: Request, q: Request)
    requires Asked(q).Some?
    ensures Asked(r) == Asked(q) <==> SameWish(r, q)
  {
    if SameWish(r, q) {
      var a, b := Asked(r).value, Asked(q).value;
      assert a == Prefix(a) * Room + a % Room && b == Prefix(b) * Room + b % Room;
    }
  }

  /** The id a symbol is declared with is the one it ends up with, but for the prefix, if and only if no
      earlier symbol has asked for it. */
  lemma AskedIdIsKept(hash: Hash, rs: seq<Request>, i: nat)
    requires i < |rs| && IsFirst(rs, i) && Acceptable(rs[i].kind, rs[i].annotation)
    ensures var id := IdOf(Created(hash, rs).tables, rs[i].kind, rs[i].name);
            (Prefix(id) == rs[i].kind && id % Room == rs[i].annotation.value % Room) <==> !AskedEarlier(rs, i)
  {
    var r := rs[i];
    var id, end := Asked(r).value, IdOf(Created(hash, rs).tables, r.kind, r.name);
    var before := DeclareAll(rs[..i]);
    assert id == Prefix(id) * Room + id % Room && end == Prefix(end) * Room + end % Room;
    FirstIsNew(rs, i);
    TakenIsAsked(rs[..i], id);
    DeclareNext(rs, i);
    if AskedEarlier(rs, i) {
      TakenEarlier(rs, i);
      DeclareAllKeeps(rs[..i]);
      var k: Kind, n :| IdOf(before.tables, k, n) == id;
      assert k == r.kind && n != r.name;
      DeclaringExtends(rs, i);
      CreatedIdsAreValid(hash, rs);
      assert end != id;
    } else {
      NotTakenEarlier(rs, i);
      StoreTables(before, r.kind, r.name, id);
      StaysToTheEnd(hash, rs, i, r.kind, r.name);
    }
  }

  lemma TakenEarlier(rs: seq<Request>, i: nat)
    requires i < |rs| && Acceptable(rs[i].kind, rs[i].annotation) && AskedEarlier(rs, i)
    ensures Asked(rs[i]).value in DeclareAll(rs[..i]).taken
  {
    var id := Asked(rs[i]).value;
    TakenIsAsked(rs[..i], id);
    var j: nat :| j < i && IsFirst(rs, j) && SameWish(rs[j], rs[i]);
    SameIdIfSameWish(rs[j], rs[i]);
    AsksInMore(rs, i, j, id);
    assert AsksAt(rs[..i], j, id);
  }

  lemma NotTakenEarlier(rs: seq<Request>, i: nat)
    requires i < |rs| && Acceptable(rs[i].kind, rs[i].annotation) && !AskedEarlier(rs, i)
    ensures Asked(rs[i]).value !in DeclareAll(rs[..i]).taken
  {
    var id := Asked(rs[i]).value;
    TakenIsAsked(rs[..i], id);
    forall j: nat | j < i ensures Asked(rs[j]) == Some(id) ==> SameWish(rs[j], rs[i]) {
      SameIdIfSameWish(rs[j], rs[i]);
    }
    if j: nat :| AsksAt(rs[..i], j, id) { AsksInMore(rs, i, j, id); }
  }

  // ---------------------------------------------------------------- hashing

  /** The `e`-th id to be tried. */
  function Nth(kind: Kind, start: nat, e: nat): (id: Id)
    ensures Prefix(id) == kind
  {
    Construct(kind, start + e)
  }

  /** What is in use when the turn of `n` comes: ids from before, and those of the names in front of it. */
  ghost predicate InUse(s: State, t: State, kind: Kind, names: set<string>, n: string, id: Id) {
    id in s.taken || exists m :: m in names && m != n && NotAfter(m, n) && IdOf(t.tables, kind, m) == id
  }

  /** `n` has the id `d` places after its hash, and those it passed over were in use. */
  ghost predicate ProbedTo(s: State, t: State, hash: Hash, kind: Kind, names: set<string>, n: string, d: nat) {
    && d < Room && IdOf(t.tables, kind, n) == Nth(kind, hash(n), d)
    && !InUse(s, t, kind, names, n, IdOf(t.tables, kind, n))
    && forall e: nat | e < d :: InUse(s, t, kind, names, n, Nth(kind, hash(n), e))
  }

  lemma {:induction false} ProbeIsNearest(taken: set<Id>, kind: Kind, start: nat, from: nat) returns (d: nat)
    requires from <= Room && Probe(taken, kind, start, from).Some?
    ensures from <= d < Room && Probe(taken, kind, start, from).value == Nth(kind, start, d)
    ensures forall e: nat | from <= e < d :: Nth(kind, start, e) in taken
    decreases Room - from
  {
    if Construct(kind, start + from) !in taken { d := from; } else { d := ProbeIsNearest(taken, kind, start, from + 1); }
  }

  /** Each name gets the first id from its hash that is not in use when its turn comes. */
  lemma {:induction false} AssignProbes(s: State, hash: Hash, kind: Kind, names: set<string>, n: string) returns (d: nat)
    requires Consistent(s.tables, s.taken) && forall m | m in names :: IdOf(s.tables, kind, m) == Invalid
    requires n in names && IdOf(Assign(s, hash, kind, names).tables, kind, n) != Invalid
    ensures ProbedTo(s, Assign(s, hash, kind, names), hash, kind, names, n, d)
    decreases |names|
  {
    var first := Least(names);
    var t := Assign(s, hash, kind, names);
    var id := Probe(s.taken, kind, hash(first), 0);
    if id.None? {
      assert false;
    } else {
      var next := Store(s, kind, first, id.value);
      StoreKeeps(s, kind, first, id.value);
      StoreTables(s, kind, first, id.value);
      AssignKeeps(next, hash, kind, names - {first});
      assert IdOf(t.tables, kind, first) == id.value;
      if n == first {
        d := ProbeIsNearest(s.taken, kind, hash(n), 0);
        FirstInLine(s, t, kind, names, n);
      } else {
        assert IdOf(next.tables, kind, n) == Invalid;
        d := AssignProbes(next, hash, kind, names - {first}, n);
        OneAhead(s, next, t, kind, names, first, n);
        assert ProbedTo(next, t, hash, kind, names - {first}, n, d);
      }
    }
  }

  lemma FirstInLine(s: State, t: State, kind: Kind, names: set<string>, n: string)
    requires names != {} && n == Least(names)
    ensures forall id :: InUse(s, t, kind, names, n, id) <==> id in s.taken
  {
    forall m | m in names && m != n ensures !NotAfter(m, n) { NotAfterIsTotalOrder(m, n, m); }
  }

  lemma OneAhead(s: State, next: State, t: State, kind: Kind, names: set<string>, first: string, n: string)
    requires first in names && n != first && NotAfter(first, n)
    requires IdOf(t.tables, kind, first) != Invalid && next.taken == s.taken + {IdOf(t.tables, kind, first)}
    ensures forall id :: InUse(next, t, kind, names - {first}, n, id) <==> InUse(s, t, kind, names, n, id)
  {
  }

  /** Ids for one type leave the other types alone. */
  lemma {:induction false} AssignElsewhere(s: State, hash: Hash, kind: Kind, names: set<string>)
    ensures var t := Assign(s, hash, kind, names);
            && (forall k: Kind | k != kind :: TableOf(t.tables, k) == TableOf(s.tables, k))
            && (forall id | id in t.taken && Prefix(id) != kind :: id in s.taken) && s.taken <= t.taken
    decreases |names|
  {
    if names != {} {
      var n := Least(names);
      var id := Probe(s.taken, kind, hash(n), 0);
      if id.Some? { AssignElsewhere(Store(s, kind, n, id.value), hash, kind, names - {n}); }
    }
  }

  lemma {:induction false} AssignKindsProbes(s: State, hash: Hash, kinds: set<Kind>, kind: Kind, n: string) returns (d: nat)
    requires Consistent(s.tables, s.taken) && kind in kinds && n in Pending(TableOf(s.tables, kind))
    requires IdOf(AssignKinds(s, hash, kinds).tables, kind, n) != Invalid
    ensures ProbedTo(s, AssignKinds(s, hash, kinds), hash, kind, Pending(TableOf(s.tables, kind)), n, d)
    decreases |kinds|
  {
    var k := LeastKind(kinds);
    var names := Pending(TableOf(s.tables, k));
    var next, t := Assign(s, hash, k, names), AssignKinds(s, hash, kinds);
    AssignKeeps(s, hash, k, names);
    if k == kind {
      AssignKindsElsewhere(next, hash, kinds - {k}, kind);
      d := AssignProbes(s, hash, kind, names, n);
      SameInTable(s, next, t, hash, kind, names, n, d);
    } else {
      AssignElsewhere(s, hash, k, names);
      d := AssignKindsProbes(next, hash, kinds - {k}, kind, n);
      SameFromOthers(s, next, t, hash, kind, Pending(TableOf(s.tables, kind)), n, d);
    }
  }

  lemma {:induction false} AssignKindsElsewhere(s: State, hash: Hash, kinds: set<Kind>, kind: Kind)
    requires kind !in kinds
    ensures TableOf(AssignKinds(s, hash, kinds).tables, kind) == TableOf(s.tables, kind)
    decreases |kinds|
  {
    if kinds != {} {
      var k := LeastKind(kinds);
      var names := Pending(TableOf(s.tables, k));
      AssignElsewhere(s, hash, k, names);
      AssignKindsElsewhere(Assign(s, hash, k, names), hash, kinds - {k}, kind);
    }
  }

  lemma SameInTable(s: State, next: State, t: State, hash: Hash, kind: Kind, names: set<string>, n: string, d: nat)
    requires ProbedTo(s, next, hash, kind, names, n, d) && TableOf(next.tables, kind) == TableOf(t.tables, kind)
    ensures ProbedTo(s, t, hash, kind, names, n, d)
  {
    assert forall m :: IdOf(t.tables, kind, m) == IdOf(next.tables, kind, m);
    assert forall id :: InUse(s, t, kind, names, n, id) <==> InUse(s, next, kind, names, n, id);
  }

  lemma SameFromOthers(s: State, next: State, t: State, hash: Hash, kind: Kind, names: set<string>, n: string, d: nat)
    requires ProbedTo(next, t, hash, kind, names, n, d)
    requires s.taken <= next.taken && forall id | id in next.taken && Prefix(id) == kind :: id in s.taken
    ensures ProbedTo(s, t, hash, kind, names, n, d)
  {
    assert forall id | Prefix(id) == kind :: InUse(s, t, kind, names, n, id) <==> InUse(next, t, kind, names, n, id);
  }

  /** In the finished table a symbol without a declared id has the first id from its hash on, wrapping
      round, that is neither declared nor given to a symbol of its type with a lower name. */
  lemma HashedIdIsNearest(hash: Hash, rs: seq<Request>, kind: Kind, n: string) returns (d: nat)
    requires n in Pending(TableOf(DeclareAll(rs).tables, kind)) && IdOf(Created(hash, rs).tables, kind, n) != Invalid
    ensures ProbedTo(DeclareAll(rs), Created(hash, rs), hash, kind, Pending(TableOf(DeclareAll(rs).tables, kind)), n, d)
  {
    DeclareAllKeeps(rs);
    d := AssignKindsProbes(DeclareAll(rs), hash, DeclareAll(rs).tables.Keys, kind, n);
  }

  /** So it has the id of its hash, unless another symbol has. */
  lemma FreeHashIsGiven(hash: Hash, rs: seq<Request>, kind: Kind, n: string)
    requires n in Pending(TableOf(DeclareAll(rs).tables, kind)) && IdOf(Created(hash, rs).tables, kind, n) != Invalid
    ensures Held(Created(hash, rs).tables, Construct(kind, hash(n)))
    ensures (forall m | m != n :: IdOf(Created(hash, rs).tables, kind, m) != Construct(kind, hash(n)))
            ==> IdOf(Created(hash, rs).tables, kind, n) == Construct(kind, hash(n))
  {
    var d := HashedIdIsNearest(hash, rs, kind, n);
    if d > 0 {
      assert Nth(kind, hash(n), 0) == Construct(kind, hash(n));
      var m := InUseByAnother(hash, rs, kind, n, Construct(kind, hash(n)));
    }
  }

  lemma InUseByAnother(hash: Hash, rs: seq<Request>, kind: Kind, n: string, id: Id) returns (m: string)
    requires n in Pending(TableOf(DeclareAll(rs).tables, kind)) && Prefix(id) == kind
    requires InUse(DeclareAll(rs), Created(hash, rs), kind, Pending(TableOf(DeclareAll(rs).tables, kind)), n, id)
    ensures m != n && IdOf(Created(hash, rs).tables, kind, m) == id
  {
    if id in DeclareAll(rs).taken {
      TakenStays(hash, rs, id);
      var k: Kind, o :| IdOf(DeclareAll(rs).tables, k, o) == id && IdOf(Created(hash, rs).tables, k, o) == id && k == Prefix(id);
      m := o;
    } else {
      m :| m in Pending(TableOf(DeclareAll(rs).tables, kind)) && m != n && IdOf(Created(hash, rs).tables, kind, m) == id;
    }
  }

  lemma TakenStays(hash: Hash, rs: seq<Request>, id: Id)
    requires id in DeclareAll(rs).taken
    ensures exists k: Kind, m :: IdOf(DeclareAll(rs).tables, k, m) == id && IdOf(Created(hash, rs).tables, k, m) == id && k == Prefix(id)
  {
    DeclareAllKeeps(rs);
    CreatedIdsAreValid(hash, rs);
    var k: Kind, m :| IdOf(DeclareAll(rs).tables, k, m) == id;
    assert IdOf(Created(hash, rs).tables, k, m) == id;
  }

  // ---------------------------------------------------------------- what is reported

  /** Request `i` calls for this error. */
  ghost predicate Refused(rs: seq<Request>, i: nat, e: Error) {
    i < |rs| &&
    match e
    case NotUnsigned(v) => rs[i].annotation == Some(v) && !(0 <= v < 0x1_0000_0000)
    case WrongPrefix(v) => rs[i].annotation == Some(v) && 0 <= v < 0x1_0000_0000 && !Acceptable(rs[i].kind, Some(v))
    case AlreadyTaken(id) => IsFirst(rs, i) && Asked(rs[i]) == Some(id) && AskedEarlier(rs, i)
    case NoneLeft(_) => false
  }

  lemma RefusedInMore(rs: seq<Request>, n: nat, i: nat, e: Error)
    requires i < n <= |rs|
    ensures Refused(rs[..n], i, e) <==> Refused(rs, i, e)
  {
    assert forall j | 0 <= j <= i :: rs[..n][j] == rs[j];
    assert IsFirst(rs[..n], i) <==> IsFirst(rs, i);
    assert AskedEarlier(rs[..n], i) <==> AskedEarlier(rs, i) by {
      if j: nat :| j < i && IsFirst(rs, j) && SameWish(rs[j], rs[i]) { assert IsFirst(rs[..n], j); }
      if j: nat :| j < i && IsFirst(rs[..n], j) && SameWish(rs[..n][j], rs[..n][i]) { assert IsFirst(rs, j); }
    }
  }

  lemma DeclareReports(s: State, r: Request, e: Error)
    ensures e in Declare(s, r).errors <==>
              || e in s.errors
              || e in ExternalId(r.kind, r.annotation).1
              || (r.name !in TableOf(s.tables, r.kind) && Asked(r).Some? && Asked(r).value in s.taken && e == AlreadyTaken(Asked(r).value))
  {
  }

  lemma RequestReports(rs: seq<Request>, n: nat, e: Error)
    requires n < |rs|
    ensures var s := DeclareAll(rs[..n]);
            e in Declare(s, rs[n]).errors <==> e in s.errors || Refused(rs, n, e)
  {
    var s := DeclareAll(rs[..n]);
    DeclareReports(s, rs[n], e);
    FirstIsNew(rs, n);
    if Asked(rs[n]).Some? {
      if AskedEarlier(rs, n) { TakenEarlier(rs, n); } else { NotTakenEarlier(rs, n); }
    }
  }

  ghost predicate IsRefused(rs: seq<Request>, e: Error) {
    exists i: nat :: Refused(rs, i, e)
  }

  lemma RefusedMore(rs: seq<Request>, n: nat, e: Error)
    requires |rs| == n + 1
    ensures IsRefused(rs, e) <==> IsRefused(rs[..n], e) || Refused(rs, n, e)
  {
    if i: nat :| Refused(rs[..n], i, e) { RefusedInMore(rs, n, i, e); }
    if i: nat :| Refused(rs, i, e) {
      if i < n { RefusedInMore(rs, n, i, e); }
    }
  }

  /** Declaring reports exactly annotations that do not fit or have another type's prefix, and ids that an
      earlier symbol has asked for. */
  lemma {:induction false} DeclaringReports(rs: seq<Request>, e: Error)
    ensures e in DeclareAll(rs).errors <==> IsRefused(rs, e)
  {
    if rs != [] {
      var n := |rs| - 1;
      DeclaringReports(rs[..n], e);
      RequestReports(rs, n, e);
      RefusedMore(rs, n, e);
    }
  }

  /** Some name has been left without an id. */
  ghost predicate LeftOver(t: State, kind: Kind, names: set<string>) {
    exists n :: n in names && IdOf(t.tables, kind, n) == Invalid
  }

  lemma {:induction false} AssignReports(s: State, hash: Hash, kind: Kind, names: set<string>)
    requires Consistent(s.tables, s.taken) && forall n | n in names :: IdOf(s.tables, kind, n) == Invalid
    ensures var t := Assign(s, hash, kind, names);
            if LeftOver(t, kind, names) then exists n :: t.errors == s.errors + [NoneLeft(n)] else t.errors == s.errors
    decreases |names|
  {
    if names != {} {
      var n := Least(names);
      var t := Assign(s, hash, kind, names);
      var id := Probe(s.taken, kind, hash(n), 0);
      if id.Some? {
        var next := Store(s, kind, n, id.value);
        StoreKeeps(s, kind, n, id.value);
        StoreTables(s, kind, n, id.value);
        AssignKeeps(next, hash, kind, names - {n});
        AssignReports(next, hash, kind, names - {n});
        assert IdOf(t.tables, kind, n) == id.value;
        assert LeftOver(t, kind, names) <==> LeftOver(t, kind, names - {n});
      }
    }
  }

  ghost predicate IsNoneLeft(e: Error) {
    e.NoneLeft?
  }

  ghost predicate Reports(errors: seq<Error>) {
    exists e :: e in errors && IsNoneLeft(e)
  }

  ghost predicate SomeLeftOver(s: State, t: State, kinds: set<Kind>) {
    exists k :: k in kinds && LeftOver(t, k, Pending(TableOf(s.tables, k)))
  }

  lemma {:induction false} AssignKindsReports(s: State, hash: Hash, kinds: set<Kind>)
    requires Consistent(s.tables, s.taken)
    ensures var t := AssignKinds(s, hash, kinds);
            && (forall e | !IsNoneLeft(e) :: e in t.errors <==> e in s.errors)
            && (Reports(t.errors) <==> Reports(s.errors) || SomeLeftOver(s, t, kinds))
    decreases |kinds|
  {
    if kinds != {} {
      var k := LeastKind(kinds);
      var names := Pending(TableOf(s.tables, k));
      var next, t := Assign(s, hash, k, names), AssignKinds(s, hash, kinds);
      AssignKeeps(s, hash, k, names);
      AssignReports(s, hash, k, names);
      AssignKindsReports(next, hash, kinds - {k});
      AssignKindsElsewhere(next, hash, kinds - {k}, k);
      AssignElsewhere(s, hash, k, names);
      OneKindLess(s, next, t, kinds, k);
      ReportedOnce(s.errors, next.errors, LeftOver(next, k, names));
    }
  }

  lemma ReportedOnce(errors: seq<Error>, more: seq<Error>, left: bool)
    requires if left then exists n :: more == errors + [NoneLeft(n)] else more == errors
    ensures forall e | !IsNoneLeft(e) :: e in more <==> e in errors
    ensures Reports(more) <==> Reports(errors) || left
  {
    if left {
      var n :| more == errors + [NoneLeft(n)];
      assert NoneLeft(n) in more && IsNoneLeft(NoneLeft(n));
    }
  }

  lemma OneKindLess(s: State, next: State, t: State, kinds: set<Kind>, k: Kind)
    requires k in kinds && TableOf(t.tables, k) == TableOf(next.tables, k)
    requires forall j: Kind | j != k :: TableOf(next.tables, j) == TableOf(s.tables, j)
    ensures SomeLeftOver(s, t, kinds) <==>
              LeftOver(next, k, Pending(TableOf(s.tables, k))) || SomeLeftOver(next, t, kinds - {k})
  {
    var names := Pending(TableOf(s.tables, k));
    assert forall n :: IdOf(t.tables, k, n) == IdOf(next.tables, k, n);
    assert LeftOver(t, k, names) <==> LeftOver(next, k, names);
    if j :| j in kinds && LeftOver(t, j, Pending(TableOf(s.tables, j))) {
      if j != k { assert j in kinds - {k} && LeftOver(t, j, Pending(TableOf(next.tables, j))); }
    }
    if j :| j in kinds - {k} && LeftOver(t, j, Pending(TableOf(next.tables, j))) {
      assert j in kinds && LeftOver(t, j, Pending(TableOf(s.tables, j)));
    }
  }

  /** In the end that is all that is reported, but for running out of ids, which is reported exactly if some
      type has more than 2^24 symbols. */
  lemma CreatedReports(hash: Hash, rs: seq<Request>)
    ensures forall e: Error | !e.NoneLeft? :: e in Created(hash, rs).errors <==> IsRefused(rs, e)
    ensures (exists n :: NoneLeft(n) in Created(hash, rs).errors) <==>
              exists k | k in Created(hash, rs).tables :: |Created(hash, rs).tables[k].Keys| > Room
  {
    var s, t := DeclareAll(rs), Created(hash, rs);
    DeclareAllKeeps(rs);
    AssignKindsReports(s, hash, s.tables.Keys);
    forall e ensures e in s.errors <==> IsRefused(rs, e) { DeclaringReports(rs, e); }
    assert !Reports(s.errors);
    AssignKindsServes(s, hash, s.tables.Keys);
    AssignKindsKeeps(s, hash, s.tables.Keys);
    forall k: Kind | k in s.tables ensures LeftOver(t, k, Pending(TableOf(s.tables, k))) <==> |t.tables[k].Keys| > Room {
      LeftOverIfTooMany(hash, rs, k);
    }
    if Reports(t.errors) {
      var e :| e in t.errors && IsNoneLeft(e);
      assert e == NoneLeft(e.name);
    }
    if n :| NoneLeft(n) in t.errors { assert IsNoneLeft(NoneLeft(n)); }
  }

  lemma LeftOverIfTooMany(hash: Hash, rs: seq<Request>, kind: Kind)
    requires kind in DeclareAll(rs).tables
    ensures var s, t := DeclareAll(rs), Created(hash, rs);
            kind in t.tables && (LeftOver(t, kind, Pending(s.tables[kind])) <==> |t.tables[kind].Keys| > Room)
  {
    var s, t := DeclareAll(rs), Created(hash, rs);
    DeclareAllKeeps(rs);
    AssignKindsKeeps(s, hash, s.tables.Keys);
    AssignKindsServes(s, hash, s.tables.Keys);
    CreatedRunsOutIfTooMany(hash, rs, kind);
    assert TableOf(s.tables, kind).Keys == TableOf(t.tables, kind).Keys;
    if n :| n in t.tables[kind] && t.tables[kind][n] == Invalid {
      assert IdOf(t.tables, kind, n) == Invalid && IdOf(s.tables, kind, n) == Invalid;
      assert n in Pending(s.tables[kind]);
    }
  }
}
