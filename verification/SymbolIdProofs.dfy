/** What holds of every symbol table, however it was populated. */
module SymbolIdProofs {
  import opened Wrappers
  import opened SymbolIds

  /** The id a symbol has in some table; absent symbols and those without one have `Invalid`. */
  function IdOf(tables: map<Kind, Table>, kind: Kind, name: string): Id {
    if name in TableOf(tables, kind) then tables[kind][name] else Invalid
  }

  ghost predicate Held(tables: map<Kind, Table>, id: Id) {
    exists k: Kind, n :: IdOf(tables, k, n) == id
  }

  /** Ids carry their prefix, no two symbols share one, and those in use are those recorded. */
  ghost predicate Consistent(tables: map<Kind, Table>, taken: set<Id>) {
    && Invalid !in taken
    && (forall k: Kind, n :: IdOf(tables, k, n) != Invalid ==>
          IdOf(tables, k, n) in taken && Prefix(IdOf(tables, k, n)) == k)
    && (forall k: Kind, n, m :: IdOf(tables, k, n) == IdOf(tables, k, m) != Invalid ==> n == m)
    && (forall id | id in taken :: Held(tables, id))
  }

  /** Ids once given stay. */
  ghost predicate Extends(before: State, after: State) {
    && before.taken <= after.taken
    && before.tables.Keys <= after.tables.Keys
    && (forall k: Kind, n :: IdOf(before.tables, k, n) != Invalid ==> IdOf(after.tables, k, n) == IdOf(before.tables, k, n))
    && (forall k | k in before.tables :: before.tables[k].Keys <= TableOf(after.tables, k).Keys)
  }

  lemma StoreKeeps(s: State, kind: Kind, name: string, id: Id)
    requires Consistent(s.tables, s.taken) && IdOf(s.tables, kind, name) == Invalid
    requires id != Invalid ==> id !in s.taken && Prefix(id) == kind
    ensures var t := Store(s, kind, name, id); Consistent(t.tables, t.taken) && Extends(s, t)
  {
    var t := Store(s, kind, name, id);
    assert forall k: Kind, n :: IdOf(t.tables, k, n) == if k == kind && n == name then id else IdOf(s.tables, k, n);
    forall i | i in t.taken ensures Held(t.tables, i) {
      if i == id {
        assert IdOf(t.tables, kind, name) == i;
      } else {
        var k: Kind, n :| IdOf(s.tables, k, n) == i;
        assert IdOf(t.tables, k, n) == i;
      }
    }
  }

  lemma DeclareKeeps(s: State, r: Request)
    requires Consistent(s.tables, s.taken)
    ensures var t := Declare(s, r); Consistent(t.tables, t.taken) && Extends(s, t)
  {
    var e := s.(errors := s.errors + ExternalId(r.kind, r.annotation).1);
    if r.name !in TableOf(s.tables, r.kind) {
      var id := Asked(r);
      StoreKeeps(e, r.kind, r.name, if id.Some? && id.value !in s.taken then id.value else Invalid);
    }
  }

  lemma {:induction false} AssignKeeps(s: State, hash: Hash, kind: Kind, names: set<string>)
    requires Consistent(s.tables, s.taken) && forall n | n in names :: IdOf(s.tables, kind, n) == Invalid
    ensures var t := Assign(s, hash, kind, names); Consistent(t.tables, t.taken) && Extends(s, t)
    decreases |names|
  {
    if names != {} {
      var n := Least(names);
      var id := Probe(s.taken, kind, hash(n), 0);
      if id.Some? {
        StoreKeeps(s, kind, n, id.value);
        AssignKeeps(Store(s, kind, n, id.value), hash, kind, names - {n});
      }
    }
  }

  lemma {:induction false} AssignKindsKeeps(s: State, hash: Hash, kinds: set<Kind>)
    requires Consistent(s.tables, s.taken)
    ensures var t := AssignKinds(s, hash, kinds); Consistent(t.tables, t.taken) && Extends(s, t)
    decreases |kinds|
  {
    if kinds != {} {
      var k := LeastKind(kinds);
      AssignKeeps(s, hash, k, Pending(TableOf(s.tables, k)));
      AssignKindsKeeps(Assign(s, hash, k, Pending(TableOf(s.tables, k))), hash, kinds - {k});
    }
  }

  lemma {:induction false} DeclareAllKeeps(rs: seq<Request>)
    ensures Consistent(DeclareAll(rs).tables, DeclareAll(rs).taken)
  {
    if rs != [] {
      DeclareAllKeeps(rs[..|rs| - 1]);
      DeclareKeeps(DeclareAll(rs[..|rs| - 1]), rs[|rs| - 1]);
    }
  }

  /** However the table was populated, each id carries its type's prefix and belongs to one symbol;
      an id accepted while declaring is what the symbol ends up with. */
  lemma CreatedIdsAreValid(hash: Hash, rs: seq<Request>)
    ensures var tables := Created(hash, rs).tables;
            && (forall k: Kind, n :: IdOf(tables, k, n) != Invalid ==> Prefix(IdOf(tables, k, n)) == k)
            && (forall k: Kind, n, j: Kind, m :: IdOf(tables, k, n) == IdOf(tables, j, m) != Invalid ==> k == j && n == m)
    ensures Extends(DeclareAll(rs), Created(hash, rs))
  {
    DeclareAllKeeps(rs);
    AssignKindsKeeps(DeclareAll(rs), hash, DeclareAll(rs).tables.Keys);
  }

  // ---------------------------------------------------------------- running out of ids

  ghost predicate Exhausted(taken: set<Id>, kind: Kind) {
    forall id: Id | Prefix(id) == kind :: id in taken
  }

  lemma {:induction false} ProbeTriesAll(taken: set<Id>, kind: Kind, start: nat, d: nat, e: nat)
    requires d <= e < Room && Probe(taken, kind, start, d) == None
    ensures Construct(kind, start + e) in taken
    decreases Room - d
  {
    if d < e { ProbeTriesAll(taken, kind, start, d + 1, e); }
  }

  lemma Reach(start: nat, low: nat) returns (e: nat)
    requires low < Room
    ensures e < Room && (start + e) % Room == low
  {
    var from := start % Room;
    e := if low >= from then low - from else low + Room - from;
    assert start + e == (start / Room + if low >= from then 0 else 1) * Room + low;
  }

  /** Probing fails exactly if every id with the prefix is taken. */
  lemma ProbeFailsIfExhausted(taken: set<Id>, kind: Kind, start: nat)
    ensures Probe(taken, kind, start, 0) == None <==> Exhausted(taken, kind)
  {
    if Probe(taken, kind, start, 0) == None {
      forall id: Id | Prefix(id) == kind ensures id in taken {
        var e := Reach(start, id % Room);
        ProbeTriesAll(taken, kind, start, 0, e);
        assert Construct(kind, start + e) == id;
      }
    }
  }

  ghost predicate SameNames(s: State, t: State) {
    s.tables.Keys == t.tables.Keys && forall k: Kind :: TableOf(s.tables, k).Keys == TableOf(t.tables, k).Keys
  }

  ghost predicate Served(s: State, kind: Kind) {
    Exhausted(s.taken, kind) || forall n | n in TableOf(s.tables, kind) :: IdOf(s.tables, kind, n) != Invalid
  }

  lemma {:induction false} AssignServes(s: State, hash: Hash, kind: Kind, names: set<string>)
    requires Consistent(s.tables, s.taken) && names <= TableOf(s.tables, kind).Keys
    requires forall n | n in names :: IdOf(s.tables, kind, n) == Invalid
    requires forall n | n in TableOf(s.tables, kind) && n !in names :: IdOf(s.tables, kind, n) != Invalid
    ensures var t := Assign(s, hash, kind, names); SameNames(s, t) && Served(t, kind)
    decreases |names|
  {
    if names != {} {
      var n := Least(names);
      var id := Probe(s.taken, kind, hash(n), 0);
      if id.Some? {
        StoreKeeps(s, kind, n, id.value);
        AssignServes(Store(s, kind, n, id.value), hash, kind, names - {n});
      } else {
        ProbeFailsIfExhausted(s.taken, kind, hash(n));
      }
    }
  }

  lemma {:induction false} AssignKindsServes(s: State, hash: Hash, kinds: set<Kind>)
    requires Consistent(s.tables, s.taken)
    ensures var t := AssignKinds(s, hash, kinds); SameNames(s, t) && forall k | k in kinds :: Served(t, k)
    decreases |kinds|
  {
    if kinds != {} {
      var k := LeastKind(kinds);
      var names := Pending(TableOf(s.tables, k));
      var t := Assign(s, hash, k, names);
      AssignKeeps(s, hash, k, names);
      AssignServes(s, hash, k, names);
      AssignKindsServes(t, hash, kinds - {k});
      AssignKindsKeeps(t, hash, kinds - {k});
    }
  }

  /** The `n` numbers from `lo` on. */
  function Block(lo: nat, n: nat): (r: set<int>)
    ensures forall i :: i in r <==> lo <= i < lo + n
    ensures |r| == n
  {
    if n == 0 then {} else Block(lo, n - 1) + {lo + n - 1}
  }

  lemma SubsetSize(a: set<int>, b: set<int>)
    requires a <= b
    ensures |a| <= |b|
  {
    assert b == a + (b - a);
  }

  function ImageOf(table: Table, names: set<string>): set<int>
    requires names <= table.Keys
  {
    set n | n in names :: table[n]
  }

  lemma {:induction false} ImageSize(table: Table, names: set<string>)
    requires names <= table.Keys
    ensures |ImageOf(table, names)| <= |names|
    ensures (forall n, m | n in names && m in names && table[n] == table[m] :: n == m) ==>
              |ImageOf(table, names)| == |names|
    decreases |names|
  {
    if names == {} {
      assert ImageOf(table, names) == {};
    } else {
      var n :| n in names;
      ImageSize(table, names - {n});
      assert ImageOf(table, names) == ImageOf(table, names - {n}) + {table[n]};
    }
  }

  lemma TableIsImage(tables: map<Kind, Table>, taken: set<Id>, kind: Kind)
    requires Consistent(tables, taken) && kind in tables && Exhausted(taken, kind)
    ensures Block(kind * Room, Room) <= ImageOf(tables[kind], tables[kind].Keys)
  {
    forall id | id in Block(kind * Room, Room) ensures id in ImageOf(tables[kind], tables[kind].Keys) {
      assert Prefix(id) == kind && id in taken && Held(tables, id);
      var k: Kind, n :| IdOf(tables, k, n) == id;
      assert IdOf(tables, k, n) != Invalid;
    }
  }

  lemma ServedUnlessTooMany(s: State, kind: Kind)
    requires Consistent(s.tables, s.taken) && kind in s.tables && Served(s, kind)
    ensures (exists n | n in s.tables[kind] :: s.tables[kind][n] == Invalid) <==> |s.tables[kind].Keys| > Room
  {
    var table := s.tables[kind];
    var ids, block := ImageOf(table, table.Keys), Block(kind * Room, Room);
    if n :| n in table && table[n] == Invalid {
      assert IdOf(s.tables, kind, n) == Invalid;
      TableIsImage(s.tables, s.taken, kind);
      ImageSize(table, table.Keys);
      SubsetSize(block + {Invalid}, ids);
      assert Invalid !in block;
    } else {
      assert forall n | n in table :: table[n] == IdOf(s.tables, kind, n) != Invalid;
      assert ids <= block;
      SubsetSize(ids, block);
      ImageSize(table, table.Keys);
    }
  }

  /** A type has a symbol left without an id exactly if it has more symbols than there are ids. */
  lemma CreatedRunsOutIfTooMany(hash: Hash, rs: seq<Request>, kind: Kind)
    requires kind in Created(hash, rs).tables
    ensures var table := Created(hash, rs).tables[kind];
            (exists n | n in table :: table[n] == Invalid) <==> |table.Keys| > Room
  {
    var s := DeclareAll(rs);
    DeclareAllKeeps(rs);
    AssignKindsKeeps(s, hash, s.tables.Keys);
    AssignKindsServes(s, hash, s.tables.Keys);
    ServedUnlessTooMany(Created(hash, rs), kind);
  }

  // ---------------------------------------------------------------- the order of declarations

  /** A symbol declared more than once asks for the same id each time. */
  predicate Agreeing(rs: seq<Request>) {
    forall r, q | r in rs && q in rs && r.kind == q.kind && r.name == q.name :: Asked(r) == Asked(q)
  }

  /** No two symbols ask for the same id. */
  predicate ConflictFree(rs: seq<Request>) {
    forall r, q | r in rs && q in rs && Asked(r).Some? && Asked(r) == Asked(q) :: r.kind == q.kind && r.name == q.name
  }

  function Wanted(r: Request): Id {
    if Asked(r).Some? then Asked(r).value else Invalid
  }

  ghost predicate Mentions(rs: seq<Request>, kind: Kind) {
    exists r :: r in rs && r.kind == kind
  }

  ghost predicate Names(rs: seq<Request>, kind: Kind, name: string) {
    exists r :: r in rs && r.kind == kind && r.name == name
  }

  ghost predicate Claims(rs: seq<Request>, id: Id) {
    exists r :: r in rs && Asked(r) == Some(id)
  }

  /** The tables hold what the requests name and nothing else. */
  ghost predicate NamesRight(tables: map<Kind, Table>, rs: seq<Request>) {
    && (forall k: Kind :: k in tables <==> Mentions(rs, k))
    && (forall k: Kind, n :: n in TableOf(tables, k) <==> Names(rs, k, n))
  }

  ghost predicate IdsRight(tables: map<Kind, Table>, rs: seq<Request>) {
    forall r | r in rs :: IdOf(tables, r.kind, r.name) == Wanted(r)
  }

  ghost predicate TakenRight(taken: set<Id>, rs: seq<Request>) {
    forall id: Id :: id in taken <==> Claims(rs, id)
  }

  ghost predicate Honours(s: State, rs: seq<Request>) {
    NamesRight(s.tables, rs) && IdsRight(s.tables, rs) && TakenRight(s.taken, rs)
  }

  lemma {:induction false} RequestsAreHonoured(rs: seq<Request>)
    requires Agreeing(rs) && ConflictFree(rs)
    ensures Honours(DeclareAll(rs), rs)
  {
    if rs != [] {
      var before, r := rs[..|rs| - 1], rs[|rs| - 1];
      assert rs == before + [r];
      RequestsAreHonoured(before);
      HonoursOneMore(DeclareAll(before), before, r);
    }
  }

  lemma InMore(rs: seq<Request>, r: Request)
    ensures forall q :: q in rs + [r] <==> q in rs || q == r
  {
  }

  lemma MentionsMore(rs: seq<Request>, r: Request, k: Kind)
    ensures Mentions(rs + [r], k) <==> Mentions(rs, k) || k == r.kind
  {
    InMore(rs, r);
  }

  lemma NamesMore(rs: seq<Request>, r: Request, k: Kind, n: string)
    ensures Names(rs + [r], k, n) <==> Names(rs, k, n) || (k == r.kind && n == r.name)
  {
    InMore(rs, r);
  }

  lemma ClaimsMore(rs: seq<Request>, r: Request, id: Id)
    ensures Claims(rs + [r], id) <==> Claims(rs, id) || Asked(r) == Some(id)
  {
    InMore(rs, r);
  }

  lemma HonoursOneMore(s: State, rs: seq<Request>, r: Request)
    requires Agreeing(rs + [r]) && ConflictFree(rs + [r]) && Honours(s, rs)
    ensures Honours(Declare(s, r), rs + [r])
  {
    InMore(rs, r);
    NamesOneMore(s, rs, r);
    IdsOneMore(s, rs, r);
    TakenOneMore(s, rs, r);
  }

  /** Adding a request gives its symbol the id it wants, and leaves the others alone. */
  lemma DeclareTables(s: State, rs: seq<Request>, r: Request)
    requires Agreeing(rs + [r]) && ConflictFree(rs + [r]) && Honours(s, rs)
    ensures var t := Declare(s, r).tables;
            && (forall k: Kind :: k in t <==> k in s.tables || k == r.kind)
            && (forall k: Kind, n :: n in TableOf(t, k) <==> n in TableOf(s.tables, k) || (k == r.kind && n == r.name))
            && (forall k: Kind, n :: IdOf(t, k, n) == if k == r.kind && n == r.name then Wanted(r) else IdOf(s.tables, k, n))
    ensures Declare(s, r).taken == s.taken + if Asked(r).Some? then {Asked(r).value} else {}
  {
    InMore(rs, r);
    if Names(rs, r.kind, r.name) {
      KnownRequest(s, rs, r);
    } else {
      if Asked(r).Some? { NewRequest(s, rs, r); }
      StoreTables(s, r.kind, r.name, Wanted(r));
    }
  }

  lemma KnownRequest(s: State, rs: seq<Request>, r: Request)
    requires Agreeing(rs + [r]) && Honours(s, rs) && Names(rs, r.kind, r.name)
    ensures r.name in TableOf(s.tables, r.kind) && IdOf(s.tables, r.kind, r.name) == Wanted(r)
    ensures Asked(r).Some? ==> Asked(r).value in s.taken
  {
    InMore(rs, r);
    var q :| q in rs && q.kind == r.kind && q.name == r.name;
    assert Asked(q) == Asked(r);
    if Asked(r).Some? { assert Claims(rs, Asked(r).value); }
  }

  lemma NewRequest(s: State, rs: seq<Request>, r: Request)
    requires ConflictFree(rs + [r]) && TakenRight(s.taken, rs) && !Names(rs, r.kind, r.name) && Asked(r).Some?
    ensures Asked(r).value !in s.taken
  {
    InMore(rs, r);
  }

  lemma NamesOneMore(s: State, rs: seq<Request>, r: Request)
    requires Agreeing(rs + [r]) && ConflictFree(rs + [r]) && Honours(s, rs)
    ensures NamesRight(Declare(s, r).tables, rs + [r])
  {
    DeclareTables(s, rs, r);
    forall k: Kind ensures k in Declare(s, r).tables <==> Mentions(rs + [r], k) {
      MentionsMore(rs, r, k);
    }
    forall k: Kind, n ensures n in TableOf(Declare(s, r).tables, k) <==> Names(rs + [r], k, n) {
      NamesMore(rs, r, k, n);
    }
  }

  lemma IdsOneMore(s: State, rs: seq<Request>, r: Request)
    requires Agreeing(rs + [r]) && ConflictFree(rs + [r]) && Honours(s, rs)
    ensures IdsRight(Declare(s, r).tables, rs + [r])
  {
    DeclareTables(s, rs, r);
    InMore(rs, r);
    forall q | q in rs + [r] ensures IdOf(Declare(s, r).tables, q.kind, q.name) == Wanted(q) {
      if q.kind == r.kind && q.name == r.name { assert Asked(q) == Asked(r); }
    }
  }

  lemma TakenOneMore(s: State, rs: seq<Request>, r: Request)
    requires Agreeing(rs + [r]) && ConflictFree(rs + [r]) && Honours(s, rs)
    ensures TakenRight(Declare(s, r).taken, rs + [r])
  {
    DeclareTables(s, rs, r);
    forall id: Id ensures id in Declare(s, r).taken <==> Claims(rs + [r], id) {
      ClaimsMore(rs, r, id);
    }
  }

  lemma StoreTables(s: State, kind: Kind, name: string, id: Id)
    ensures var t := Store(s, kind, name, id).tables;
            && (forall k: Kind :: k in t <==> k in s.tables || k == kind)
            && (forall k: Kind, n :: n in TableOf(t, k) <==> n in TableOf(s.tables, k) || (k == kind && n == name))
            && (forall k: Kind, n :: IdOf(t, k, n) == if k == kind && n == name then id else IdOf(s.tables, k, n))
  {
  }

  lemma HonouredAlike(s: State, t: State, rs: seq<Request>, qs: seq<Request>)
    requires Honours(s, rs) && Honours(t, qs) && forall r :: r in rs <==> r in qs
    ensures s.tables == t.tables && s.taken == t.taken
  {
    SameAnswers(rs, qs);
    assert s.tables.Keys == t.tables.Keys;
    forall k: Kind | k in s.tables ensures s.tables[k] == t.tables[k] {
      HonouredTable(s.tables, t.tables, rs, qs, k);
    }
  }

  lemma HonouredTable(s: map<Kind, Table>, t: map<Kind, Table>, rs: seq<Request>, qs: seq<Request>, kind: Kind)
    requires NamesRight(s, rs) && NamesRight(t, qs) && IdsRight(s, rs) && IdsRight(t, qs)
    requires forall r :: r in rs <==> r in qs
    ensures TableOf(s, kind) == TableOf(t, kind)
  {
    HonouredNames(s, t, rs, qs, kind);
    HonouredIds(s, t, rs, qs, kind);
    TablesAlike(s, t, kind);
  }

  lemma HonouredIds(s: map<Kind, Table>, t: map<Kind, Table>, rs: seq<Request>, qs: seq<Request>, kind: Kind)
    requires NamesRight(s, rs) && IdsRight(s, rs) && IdsRight(t, qs) && forall r :: r in rs <==> r in qs
    ensures forall n | n in TableOf(s, kind) :: IdOf(s, kind, n) == IdOf(t, kind, n)
  {
    forall n | n in TableOf(s, kind) ensures IdOf(s, kind, n) == IdOf(t, kind, n) {
      HonouredEntry(s, t, rs, qs, kind, n);
    }
  }

  lemma TablesAlike(s: map<Kind, Table>, t: map<Kind, Table>, kind: Kind)
    requires forall n :: n in TableOf(s, kind) <==> n in TableOf(t, kind)
    requires forall n | n in TableOf(s, kind) :: IdOf(s, kind, n) == IdOf(t, kind, n)
    ensures TableOf(s, kind) == TableOf(t, kind)
  {
    var a, b := TableOf(s, kind), TableOf(t, kind);
    assert a.Keys == b.Keys;
    assert forall n | n in a :: a[n] == IdOf(s, kind, n) == b[n];
  }

  lemma HonouredNames(s: map<Kind, Table>, t: map<Kind, Table>, rs: seq<Request>, qs: seq<Request>, kind: Kind)
    requires NamesRight(s, rs) && NamesRight(t, qs) && forall r :: r in rs <==> r in qs
    ensures forall n :: n in TableOf(s, kind) <==> n in TableOf(t, kind)
  {
    SameAnswers(rs, qs);
  }

  lemma SameAnswers(rs: seq<Request>, qs: seq<Request>)
    requires forall r :: r in rs <==> r in qs
    ensures forall k: Kind :: Mentions(rs, k) <==> Mentions(qs, k)
    ensures forall id: Id :: Claims(rs, id) <==> Claims(qs, id)
    ensures forall k: Kind, n :: Names(rs, k, n) <==> Names(qs, k, n)
  {
  }

  lemma HonouredEntry(s: map<Kind, Table>, t: map<Kind, Table>, rs: seq<Request>, qs: seq<Request>, kind: Kind, name: string)
    requires NamesRight(s, rs) && IdsRight(s, rs) && IdsRight(t, qs) && (forall r :: r in rs <==> r in qs)
    requires name in TableOf(s, kind)
    ensures IdOf(s, kind, name) == IdOf(t, kind, name)
  {
    assert Names(rs, kind, name);
    var r :| r in rs && r.kind == kind && r.name == name;
    assert r in qs && IdOf(s, r.kind, r.name) == Wanted(r) == IdOf(t, r.kind, r.name);
  }

  lemma {:induction false} AssignIgnoresErrors(s: State, t: State, hash: Hash, kind: Kind, names: set<string>)
    requires s.tables == t.tables && s.taken == t.taken
    ensures var a, b := Assign(s, hash, kind, names), Assign(t, hash, kind, names); a.tables == b.tables && a.taken == b.taken
    decreases |names|
  {
    if names != {} {
      var n := Least(names);
      var id := Probe(s.taken, kind, hash(n), 0);
      if id.Some? {
        AssignIgnoresErrors(Store(s, kind, n, id.value), Store(t, kind, n, id.value), hash, kind, names - {n});
      }
    }
  }

  lemma {:induction false} AssignKindsIgnoresErrors(s: State, t: State, hash: Hash, kinds: set<Kind>)
    requires s.tables == t.tables && s.taken == t.taken
    ensures AssignKinds(s, hash, kinds).tables == AssignKinds(t, hash, kinds).tables
    decreases |kinds|
  {
    if kinds != {} {
      var k := LeastKind(kinds);
      var names := Pending(TableOf(s.tables, k));
      AssignIgnoresErrors(s, t, hash, k, names);
      AssignKindsIgnoresErrors(Assign(s, hash, k, names), Assign(t, hash, k, names), hash, kinds - {k});
    }
  }

  lemma {:induction false} EarlierIdsStay(first: Request, rs: seq<Request>)
    ensures Extends(DeclareAll([first]), DeclareAll([first] + rs))
  {
    if rs == [] {
      assert [first] + rs == [first];
    } else {
      var before := rs[..|rs| - 1];
      var all := [first] + rs;
      assert all[..|all| - 1] == [first] + before;
      EarlierIdsStay(first, before);
      DeclareAllKeeps([first] + before);
      DeclareKeeps(DeclareAll([first] + before), rs[|rs| - 1]);
    }
  }

  /** Whoever asks first gets the id. */
  lemma FirstIsServed(hash: Hash, first: Request, rs: seq<Request>)
    requires Asked(first).Some?
    ensures IdOf(Created(hash, [first] + rs).tables, first.kind, first.name) == Asked(first).value
  {
    var all := [first] + rs;
    assert [first][..0] == [];
    assert DeclareAll([first]) == Declare(Empty, first);
    assert IdOf(DeclareAll([first]).tables, first.kind, first.name) == Asked(first).value;
    EarlierIdsStay(first, rs);
    CreatedIdsAreValid(hash, all);
  }

  function ToFront(rs: seq<Request>, i: nat): seq<Request>
    requires i < |rs|
  {
    [rs[i]] + (rs[..i] + rs[i + 1..])
  }

  lemma ToFrontPermutes(rs: seq<Request>, i: nat)
    requires i < |rs|
    ensures multiset(ToFront(rs, i)) == multiset(rs)
  {
    assert rs == rs[..i] + [rs[i]] + rs[i + 1..];
  }

  lemma SameElements(rs: seq<Request>, qs: seq<Request>)
    requires multiset(rs) == multiset(qs)
    ensures forall r :: r in rs <==> r in qs
  {
    assert forall r :: r in rs <==> r in multiset(rs);
    assert forall r :: r in qs <==> r in multiset(qs);
  }

  /** The ids do not depend on the order of the declarations exactly if no two symbols ask for the
      same one. */
  lemma OrderIsIrrelevant(hash: Hash, rs: seq<Request>)
    requires Agreeing(rs)
    ensures (forall qs | multiset(qs) == multiset(rs) :: Created(hash, qs).tables == Created(hash, rs).tables) <==> ConflictFree(rs)
  {
    if ConflictFree(rs) {
      forall qs | multiset(qs) == multiset(rs) ensures Created(hash, qs).tables == Created(hash, rs).tables {
        SameElements(rs, qs);
        RequestsAreHonoured(rs);
        RequestsAreHonoured(qs);
        HonouredAlike(DeclareAll(rs), DeclareAll(qs), rs, qs);
        AssignKindsIgnoresErrors(DeclareAll(rs), DeclareAll(qs), hash, DeclareAll(rs).tables.Keys);
      }
    } else {
      OrderMatters(hash, rs);
    }
  }

  lemma OrderMatters(hash: Hash, rs: seq<Request>)
    requires !ConflictFree(rs)
    ensures exists ps :: multiset(ps) == multiset(rs) && Created(hash, ps).tables != Created(hash, rs).tables
  {
    var r, q :| r in rs && q in rs && Asked(r).Some? && Asked(r) == Asked(q) && !(r.kind == q.kind && r.name == q.name);
    var i :| 0 <= i < |rs| && rs[i] == r;
    var j :| 0 <= j < |rs| && rs[j] == q;
    ToFrontPermutes(rs, i);
    ToFrontPermutes(rs, j);
    var ps, qs := ToFront(rs, i), ToFront(rs, j);
    FirstIsServed(hash, r, ps[1..]);
    FirstIsServed(hash, q, qs[1..]);
    assert ps == [r] + ps[1..] && qs == [q] + qs[1..];
    CreatedIdsAreValid(hash, ps);
    assert IdOf(Created(hash, ps).tables, q.kind, q.name) != IdOf(Created(hash, qs).tables, q.kind, q.name);
  }
}
