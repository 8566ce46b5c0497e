/** P4Runtime ids: how the symbol table hands them out, as functions on its contents. */
module SymbolIds {
  import opened Wrappers

  /** `p4rt_id_t`. */
  type Id = n: nat | n < 0x1_0000_0000
  /** The resource type: the upper 8 bits of an id. */
  type Kind = k: nat | 0 < k < 256 witness 1
  type Table = map<string, Id>
  /** The name hash; nothing here depends on which one it is. */
  type Hash = string -> Id

  /** How many ids share a prefix. */
  const Room: nat := 0x100_0000
  const Invalid: Id := 0

  datatype Error = NotUnsigned(value: int) | WrongPrefix(id: Id) | AlreadyTaken(id: Id) | NoneLeft(name: string)
  datatype State = State(tables: map<Kind, Table>, taken: set<Id>, errors: seq<Error>)
  /** A declaration to add, with the value of its `@id` annotation. */
  datatype Request = Request(kind: Kind, name: string, annotation: Option<int>)

  const Empty := State(map[], {}, [])

  function Prefix(id: Id): nat {
    id / Room
  }

  /** `(resourceType << 24) | (value & 0xffffff)`. */
  function Construct(kind: Kind, value: nat): (id: Id)
    ensures Prefix(id) == kind && id % Room == value % Room
  {
    kind * Room + value % Room
  }

  /** An annotation fits in 32 bits and has no prefix or the right one. */
  predicate Acceptable(kind: Kind, annotation: Option<int>) {
    annotation.Some? && 0 <= annotation.value < 0x1_0000_0000 && (annotation.value / Room == 0 || annotation.value / Room == kind)
  }

  /** The `@id` a declaration asks for: it has the type's prefix and the lower 24 bits of the annotation. */
  function ExternalId(kind: Kind, annotation: Option<int>): (r: (Option<Id>, seq<Error>))
    ensures r.0.Some? <==> Acceptable(kind, annotation)
    ensures r.0.Some? ==> && r.0.value / 0x100_0000 == Prefix(r.0.value) == kind
                          && r.0.value % 0x100_0000 == annotation.value % 0x100_0000
                          && r.0.value != Invalid && r.1 == []
    ensures r.0.None? ==>
              r.1 == if annotation.None? then []
                     else if 0 <= annotation.value < 0x1_0000_0000 then [WrongPrefix(annotation.value)]
                     else [NotUnsigned(annotation.value)]
    ensures annotation.Some? && annotation.value / Room == kind ==> r.0 == Some(annotation.value)
  {
    match annotation
    case None => (None, [])
    case Some(v) =>
      if !(0 <= v < 0x1_0000_0000) then (None, [NotUnsigned(v)])
      else if v / Room != 0 && v / Room != kind then (None, [WrongPrefix(v)])
      else (Some(Construct(kind, v)), [])
  }

  function TableOf(tables: map<Kind, Table>, kind: Kind): Table {
    if kind in tables then tables[kind] else map[]
  }

  function Store(s: State, kind: Kind, name: string, id: Id): State {
    s.(tables := s.tables[kind := TableOf(s.tables, kind)[name := id]],
       taken := if id == Invalid then s.taken else s.taken + {id})
  }

  /** A name already in the table is left alone; an id already taken is refused. */
  function Add(s: State, kind: Kind, name: string, id: Option<Id>): State {
    if name in TableOf(s.tables, kind) then s
    else if id.None? then Store(s, kind, name, Invalid)
    else if id.value in s.taken then Store(s, kind, name, Invalid).(errors := s.errors + [AlreadyTaken(id.value)])
    else Store(s, kind, name, id.value).(taken := s.taken + {id.value})
  }

  function Asked(r: Request): Option<Id> {
    ExternalId(r.kind, r.annotation).0
  }

  function Declare(s: State, r: Request): State {
    Add(s.(errors := s.errors + ExternalId(r.kind, r.annotation).1), r.kind, r.name, Asked(r))
  }

  function DeclareAll(rs: seq<Request>): State {
    if rs == [] then Empty else Declare(DeclareAll(rs[..|rs| - 1]), rs[|rs| - 1])
  }

  /** The first id not taken, from the `d`-th after `start` on, wrapping round. */
  function Probe(taken: set<Id>, kind: Kind, start: nat, d: nat): (r: Option<Id>)
    requires d <= Room
    ensures r.Some? ==> r.value !in taken && Prefix(r.value) == kind && r.value != Invalid
    decreases Room - d
  {
    if d == Room then None
    else if Construct(kind, start + d) !in taken then Some(Construct(kind, start + d))
    else Probe(taken, kind, start, d + 1)
  }

  // ---------------------------------------------------------------- names in order

  /** `operator<` on names, or equal. */
  predicate NotAfter(a: string, b: string) {
    a == "" || (b != "" && (a[0] < b[0] || (a[0] == b[0] && NotAfter(a[1..], b[1..]))))
  }

  lemma {:induction false} NotAfterIsTotalOrder(a: string, b: string, c: string)
    ensures NotAfter(a, b) || NotAfter(b, a)
    ensures NotAfter(a, b) && NotAfter(b, a) ==> a == b
    ensures NotAfter(a, b) && NotAfter(b, c) ==> NotAfter(a, c)
    decreases |a| + |b| + |c|
  {
    if a != "" && b != "" {
      NotAfterIsTotalOrder(a[1..], b[1..], if c == "" then "" else c[1..]);
      assert a == [a[0]] + a[1..] && b == [b[0]] + b[1..];
    }
  }

  /** Where two names first differ, the lower character comes first; a name comes before its extensions. */
  lemma {:induction false} NotAfterIsLexicographic(a: string, b: string)
    ensures NotAfter(a, b) <==>
              exists k: nat :: k <= |a| && k <= |b| && a[..k] == b[..k] && (k == |a| || (k < |b| && a[k] < b[k]))
  {
    if a == "" {
      assert a[..0] == b[..0];
    } else if b != "" && a[0] == b[0] {
      NotAfterIsLexicographic(a[1..], b[1..]);
      if k: nat :| k < |a| && k < |b| && a[1..][..k] == b[1..][..k] && (k == |a| - 1 || (k < |b| - 1 && a[1..][k] < b[1..][k])) {
        assert a[..k + 1] == [a[0]] + a[1..][..k] && b[..k + 1] == [b[0]] + b[1..][..k];
      }
      if k: nat :| k <= |a| && k <= |b| && a[..k] == b[..k] && (k == |a| || (k < |b| && a[k] < b[k])) {
        assert k > 0;
        assert a[1..][..k - 1] == a[..k][1..] && b[1..][..k - 1] == b[..k][1..];
      }
    } else if b != "" {
      assert a[..0] == b[..0];
      assert forall k: nat | 0 < k <= |a| && k <= |b| :: a[..k][0] == a[0] && b[..k][0] == b[0];
    }
  }

  ghost predicate IsLeast(names: set<string>, n: string) {
    n in names && forall m | m in names :: NotAfter(n, m)
  }

  lemma {:induction false} LeastExists(names: set<string>)
    requires names != {}
    ensures exists n :: IsLeast(names, n)
    decreases |names|
  {
    var a :| a in names;
    if names == {a} {
      NotAfterIsTotalOrder(a, a, a);
      assert IsLeast(names, a);
    } else {
      var rest := names - {a};
      assert rest != {} by {
        assert names == {a} + rest;
      }
      LeastExists(rest);
      var n :| IsLeast(rest, n);
      NotAfterIsTotalOrder(a, n, a);
      if NotAfter(n, a) {
        assert IsLeast(names, n);
      } else {
        forall m | m in names ensures NotAfter(a, m) {
          NotAfterIsTotalOrder(a, n, m);
          NotAfterIsTotalOrder(a, a, a);
          assert m == a || m in rest;
        }
        assert IsLeast(names, a);
      }
    }
  }

  ghost function Least(names: set<string>): (n: string)
    requires names != {}
    ensures IsLeast(names, n)
  {
    LeastExists(names);
    var n :| IsLeast(names, n);
    n
  }

  lemma LeastIsUnique(names: set<string>, n: string)
    requires IsLeast(names, n)
    ensures n == Least(names)
  {
    NotAfterIsTotalOrder(n, Least(names), n);
  }

  // ---------------------------------------------------------------- computing the missing ids

  function Pending(table: Table): set<string> {
    set n | n in table && table[n] == Invalid
  }

  /** Gives each pending name an id, in order; stops where there is none left. */
  ghost function Assign(s: State, hash: Hash, kind: Kind, names: set<string>): State
    decreases |names|
  {
    if names == {} then s
    else
      var n := Least(names);
      match Probe(s.taken, kind, hash(n), 0)
      case None => s.(errors := s.errors + [NoneLeft(n)])
      case Some(id) => Assign(Store(s, kind, n, id), hash, kind, names - {n})
  }

  ghost predicate IsLeastKind(kinds: set<Kind>, k: Kind) {
    k in kinds && forall j | j in kinds :: k <= j
  }

  ghost function LeastKind(kinds: set<Kind>): (k: Kind)
    requires kinds != {}
    ensures IsLeastKind(kinds, k)
  {
    LeastKindExists(kinds);
    var k :| IsLeastKind(kinds, k);
    k
  }

  lemma {:induction false} LeastKindExists(kinds: set<Kind>)
    requires kinds != {}
    ensures exists k :: IsLeastKind(kinds, k)
    decreases |kinds|
  {
    var a :| a in kinds;
    var rest := kinds - {a};
    assert kinds == rest + {a};
    if rest == {} {
      assert IsLeastKind(kinds, a);
    } else {
      LeastKindExists(rest);
      var k :| IsLeastKind(rest, k);
      assert IsLeastKind(kinds, if k < a then k else a);
    }
  }

  ghost function AssignKinds(s: State, hash: Hash, kinds: set<Kind>): State
    decreases |kinds|
  {
    if kinds == {} then s
    else
      var k := LeastKind(kinds);
      AssignKinds(Assign(s, hash, k, Pending(TableOf(s.tables, k))), hash, kinds - {k})
  }

  /** The whole table, once all has been declared and ids have been computed. */
  ghost function Created(hash: Hash, rs: seq<Request>): State {
    var s := DeclareAll(rs);
    AssignKinds(s, hash, s.tables.Keys)
  }
}
