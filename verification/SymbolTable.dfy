/** `P4RuntimeSymbolTable`: the symbols of each type, their ids and their aliases. */
module SymbolTables {
  import opened Wrappers
  import opened SymbolIds
  import SymbolIdProofs
  import Suffixes
  import SuffixTree

  ghost predicate IsName(tables: map<Kind, Table>, name: string) {
    exists k: Kind :: name in TableOf(tables, k)
  }

  ghost predicate NamesAre(names: set<string>, tables: map<Kind, Table>) {
    forall n :: n in names <==> IsName(tables, n)
  }

  lemma StoreNames(names: set<string>, s: State, kind: Kind, name: string, id: Id)
    requires NamesAre(names, s.tables)
    ensures NamesAre(names + {name}, Store(s, kind, name, id).tables)
  {
    var tables := Store(s, kind, name, id).tables;
    assert forall k: Kind, n :: n in TableOf(tables, k) <==> n in TableOf(s.tables, k) || (k == kind && n == name);
    forall n ensures n in names + {name} <==> IsName(tables, n) {
      assert n == name ==> n in TableOf(tables, kind);
      if IsName(s.tables, n) {
        var k: Kind :| n in TableOf(s.tables, k);
        assert n in TableOf(tables, k);
      }
    }
  }

  lemma StoreAgainNames(names: set<string>, s: State, kind: Kind, name: string, id: Id)
    requires NamesAre(names, s.tables) && name in TableOf(s.tables, kind)
    ensures NamesAre(names, Store(s, kind, name, id).tables)
  {
    StoreNames(names, s, kind, name, id);
    assert IsName(s.tables, name);
    assert names + {name} == names;
  }

  class P4RuntimeSymbolTable {
    const hash: Hash
    const suffixSet: SuffixTree.SymbolSuffixSet
    var symbolTables: map<Kind, Table>
    var assignedIds: set<Id>
    var errors: seq<Error>

    function Contents(): State
      reads this
    {
      State(symbolTables, assignedIds, errors)
    }

    ghost predicate Valid()
      reads this, suffixSet, suffixSet.nodes.Values
    {
      suffixSet.Valid() && Named()
    }

    /** The suffix set holds the names of all symbols. */
    ghost predicate Named()
      reads this, suffixSet
    {
      NamesAre(suffixSet.symbols, symbolTables)
    }

    ghost function Footprint(): set<object>
      reads suffixSet
    {
      {this, suffixSet} + suffixSet.repr
    }

    constructor (hash: Hash)
      ensures Valid() && Contents() == Empty && this.hash == hash && fresh(Footprint())
    {
      this.hash := hash;
      suffixSet := new SuffixTree.SymbolSuffixSet();
      symbolTables := map[];
      assignedIds := {};
      errors := [];
    }

    method TryToAssignId(id: Option<Id>) returns (r: Id)
      modifies this`assignedIds, this`errors
      ensures r == if id.Some? && id.value !in old(assignedIds) then id.value else Invalid
      ensures assignedIds == old(assignedIds) + if id.Some? then {id.value} else {}
      ensures errors == old(errors) + if id.Some? && id.value in old(assignedIds) then [AlreadyTaken(id.value)] else []
    {
      if id.None? { return Invalid; }
      if id.value in assignedIds {
        errors := errors + [AlreadyTaken(id.value)];
        return Invalid;
      }
      assignedIds := assignedIds + {id.value};
      return id.value;
    }

    /** Puts a new symbol in its table. */
    method Enter(kind: Kind, name: string, id: Option<Id>)
      requires name !in TableOf(symbolTables, kind)
      modifies this
      ensures Contents() == Add(old(Contents()), kind, name, id)
      ensures NamesAre(suffixSet.symbols, old(symbolTables)) ==> NamesAre(suffixSet.symbols + {name}, symbolTables)
    {
      var table := if kind in symbolTables then symbolTables[kind] else map[];
      var given := TryToAssignId(id);
      symbolTables := symbolTables[kind := table[name := given]];
      if NamesAre(suffixSet.symbols, old(symbolTables)) {
        StoreNames(suffixSet.symbols, old(Contents()), kind, name, given);
      }
    }

    /** A duplicate is left alone. */
    method AddSymbol(kind: Kind, name: string, id: Option<Id>)
      requires Valid() && name != ""
      modifies Footprint()
      ensures Valid() && Contents() == Add(old(Contents()), kind, name, id) && fresh(Footprint() - old(Footprint()))
    {
      if name in TableOf(symbolTables, kind) { return; }
      Enter(kind, name, id);
      suffixSet.AddSymbol(name);
    }

    method AddDeclaration(r: Request)
      requires Valid() && r.name != ""
      modifies Footprint()
      ensures Valid() && Contents() == Declare(old(Contents()), r) && fresh(Footprint() - old(Footprint()))
    {
      var (id, problems) := ExternalId(r.kind, r.annotation);
      errors := errors + problems;
      AddSymbol(r.kind, r.name, id);
    }

    method AddDeclarations(rs: seq<Request>)
      requires Valid() && Contents() == Empty && forall r | r in rs :: r.name != ""
      modifies Footprint()
      ensures Valid() && Contents() == DeclareAll(rs) && fresh(Footprint() - old(Footprint()))
    {
      for i := 0 to |rs|
        invariant Valid() && Contents() == DeclareAll(rs[..i]) && fresh(Footprint() - old(Footprint()))
      {
        DeclareNext(rs, i);
        AddDeclaration(rs[i]);
      }
      assert rs[..|rs|] == rs;
    }

    /** Linear probing of the value the id is made from, which wraps round at 32 bits. */
    method ProbeForId(source: Id, kind: Kind) returns (r: Option<Id>)
      ensures r == Probe(assignedIds, kind, source, 0)
    {
      var value: nat := source;
      ghost var d := 0;
      while Construct(kind, value) in assignedIds
        invariant Probing(assignedIds, kind, source, d, value)
        decreases 0x1_0000_0000 - d
      {
        ProbeNext(assignedIds, kind, source, d, value);
        value := (value + 1) % 0x1_0000_0000;
        d := d + 1;
        if value == source { return None; }
      }
      ProbeHit(assignedIds, kind, source, d, value);
      r := Some(Construct(kind, value));
    }

    /** `nameToIteratorMap` keeps the names sorted; this is its first one. */
    method FirstOf(names: set<string>) returns (n: string)
      requires names != {}
      ensures n == Least(names)
    {
      LeastExists(names);
      assert exists m :: m in names && forall k | k in names :: NotAfter(m, k) by {
        var m :| IsLeast(names, m);
      }
      n :| n in names && forall m | m in names :: NotAfter(n, m);
      LeastIsUnique(names, n);
    }

    method ComputeIdsForSymbols(kind: Kind)
      requires Named() && kind in symbolTables
      modifies this`symbolTables, this`assignedIds, this`errors
      ensures Named() && symbolTables.Keys == old(symbolTables.Keys)
      ensures Contents() == Assign(old(Contents()), hash, kind, Pending(old(symbolTables)[kind]))
    {
      var names := Pending(symbolTables[kind]);
      while names != {}
        invariant Named() && kind in symbolTables && symbolTables.Keys == old(symbolTables.Keys)
        invariant names <= symbolTables[kind].Keys
        invariant Assign(old(Contents()), hash, kind, Pending(old(symbolTables)[kind])) == Assign(Contents(), hash, kind, names)
        decreases |names|
      {
        var name := FirstOf(names);
        var id := ProbeForId(hash(name), kind);
        if id.None? {
          errors := errors + [NoneLeft(name)];
          return;
        }
        StoreAgainNames(suffixSet.symbols, Contents(), kind, name, id.value);
        assignedIds := assignedIds + {id.value};
        symbolTables := symbolTables[kind := symbolTables[kind][name := id.value]];
        names := names - {name};
      }
    }

    method FirstKind(kinds: set<Kind>) returns (kind: Kind)
      requires kinds != {}
      ensures kind == LeastKind(kinds)
    {
      LeastKindExists(kinds);
      assert exists k :: k in kinds && forall j | j in kinds :: k <= j by {
        var k :| IsLeastKind(kinds, k);
      }
      kind :| kind in kinds && forall j | j in kinds :: kind <= j;
    }

    method ComputeIds()
      requires Named()
      modifies this`symbolTables, this`assignedIds, this`errors
      ensures Named() && (old(Valid()) ==> Valid())
      ensures Contents() == AssignKinds(old(Contents()), hash, old(symbolTables).Keys)
    {
      var kinds := symbolTables.Keys;
      while kinds != {}
        invariant Named() && kinds <= symbolTables.Keys
        invariant AssignKinds(old(Contents()), hash, old(symbolTables).Keys) == AssignKinds(Contents(), hash, kinds)
        decreases |kinds|
      {
        var kind := FirstKind(kinds);
        ComputeIdsForSymbols(kind);
        kinds := kinds - {kind};
      }
    }

    method GetAlias(kind: Kind, name: string) returns (alias: string)
      requires Valid() && name in TableOf(symbolTables, kind)
      ensures NamesAre(suffixSet.symbols, symbolTables) && alias == Suffixes.Alias(suffixSet.symbols, name)
    {
      assert IsName(symbolTables, name);
      alias := suffixSet.ShortestUniqueSuffix(name);
    }
  }

  /** Probing has come to `value` after `d` steps, having found nothing free. */
  ghost predicate Probing(taken: set<Id>, kind: Kind, source: Id, d: nat, value: nat) {
    && d < 0x1_0000_0000 && value == (source + d) % 0x1_0000_0000
    && Probe(taken, kind, source, 0) == Probe(taken, kind, source, if d < Room then d else Room)
  }

  lemma WrapKeepsLowBits(source: Id, d: nat)
    requires d < 0x1_0000_0000
    ensures (source + d) % 0x1_0000_0000 % Room == (source + d) % Room
  {
    var value := if source + d < 0x1_0000_0000 then source + d else source + d - 0x1_0000_0000;
    assert value == (source + d) % 0x1_0000_0000;
    assert source + d == value || source + d == value + 256 * Room;
  }

  lemma WrapStep(source: Id, d: nat)
    requires d < 0x1_0000_0000
    ensures var next := ((source + d) % 0x1_0000_0000 + 1) % 0x1_0000_0000;
            next == (source + d + 1) % 0x1_0000_0000 && (next == source <==> d + 1 == 0x1_0000_0000)
  {
  }

  lemma ProbeNext(taken: set<Id>, kind: Kind, source: Id, d: nat, value: nat)
    requires Probing(taken, kind, source, d, value) && Construct(kind, value) in taken
    ensures var next := (value + 1) % 0x1_0000_0000;
            if next == source then Probe(taken, kind, source, 0) == None else Probing(taken, kind, source, d + 1, next)
  {
    WrapKeepsLowBits(source, d);
    WrapStep(source, d);
    assert Construct(kind, value) == Construct(kind, source + d);
    assert d < Room ==> Probe(taken, kind, source, d) == Probe(taken, kind, source, d + 1);
  }

  lemma ProbeHit(taken: set<Id>, kind: Kind, source: Id, d: nat, value: nat)
    requires Probing(taken, kind, source, d, value) && Construct(kind, value) !in taken
    ensures Probe(taken, kind, source, 0) == Some(Construct(kind, value))
  {
    WrapKeepsLowBits(source, d);
    assert Construct(kind, value) == Construct(kind, source + d);
    SymbolIdProofs.ProbeFailsIfExhausted(taken, kind, source);
  }

  lemma DeclareNext(rs: seq<Request>, i: nat)
    requires i < |rs|
    ensures DeclareAll(rs[..i + 1]) == Declare(DeclareAll(rs[..i]), rs[i])
  {
    assert rs[..i + 1][..i] == rs[..i];
  }

  method Populate(hash: Hash, declarations: seq<Request>) returns (symbols: P4RuntimeSymbolTable)
    requires forall r | r in declarations :: r.name != ""
    ensures fresh(symbols.Footprint()) && symbols.Valid() && symbols.hash == hash
    ensures symbols.Contents() == DeclareAll(declarations)
  {
    symbols := new P4RuntimeSymbolTable(hash);
    ghost var before := symbols.Footprint();
    symbols.AddDeclarations(declarations);
    assert fresh(before) && fresh(symbols.Footprint() - before);
  }

  /** Populates a table and gives every symbol an id. */
  method Create(hash: Hash, declarations: seq<Request>) returns (symbols: P4RuntimeSymbolTable)
    requires forall r | r in declarations :: r.name != ""
    ensures fresh(symbols.Footprint()) && symbols.Valid() && symbols.hash == hash
    ensures symbols.Contents() == Created(hash, declarations)
  {
    symbols := Populate(hash, declarations);
    symbols.ComputeIds();
  }
}
