/** The statement splitter of ir/splitter.cpp: syntax, the transformation as a function, and the
    imperative visitor proved equal to it. Its meaning is proved in SplitterMeaning.dfy. */
module Splitter {
  import opened Wrappers

  /** `Generated` names come from the name generator; a source program mentions only `Source` names. */
  datatype Name = Source(text: string) | Generated(base: string, index: nat)

  datatype Expr =
    | Original(id: nat, uses: set<string>)
    | PathExpression(name: Name)

  /** Loop-free statements. `id` is node identity, so a predicate over `Stmt` may tell apart
      statements that are otherwise equal. `Assign` is only ever built by the splitter. */
  datatype Stmt =
    | Leaf(id: nat, uses: set<string>)
    | Decl(name: Name)
    | Assign(target: Name, value: Expr)
    | Block(id: nat, components: seq<Stmt>)
    | If(id: nat, condition: Expr, ifTrue: Stmt, ifFalse: Option<Stmt>)
    | Switch(id: nat, selector: Expr, cases: seq<Case>)

  /** A case without a body falls through to the next case that has one. */
  datatype Case = Case(caseLabel: Label, body: Option<Stmt>)

  datatype Label = Default | Value(literal: int)

  /** The caller's predicate, and which uses (name, using node) resolve inside the split statement. */
  datatype Config = Config(matches: Stmt -> bool, resolves: (string, nat) -> bool)

  datatype SplitResult = SplitResult(before: Option<Stmt>, after: Option<Stmt>, hoisted: seq<Name>)

  const EMPTY := SplitResult(None, None, [])

  /** What the visitor threads through the traversal besides its result. */
  datatype State = State(generated: nat, needed: set<string>)

  function NewBlock(components: seq<Stmt>): Stmt {
    Block(0, components)
  }

  function OrEmptyBlock(s: Option<Stmt>): Stmt {
    if s.Some? then s.value else NewBlock([])
  }

  // ---------------------------------------------------------------- needed declarations

  function NeededNames(cfg: Config, uses: set<string>, id: nat): set<string> {
    set x | x in uses && cfg.resolves(x, id)
  }

  function NeededByExpr(cfg: Config, e: Expr): set<string> {
    match e
    case Original(id, uses) => NeededNames(cfg, uses, id)
    case PathExpression(_) => {}
  }

  /** Names used in `s` that resolve to a declaration inside the statement being split. */
  function Needed(cfg: Config, s: Stmt): set<string>
    decreases s, 1
  {
    match s
    case Leaf(id, uses) => NeededNames(cfg, uses, id)
    case Decl(_) => {}
    case Assign(_, e) => NeededByExpr(cfg, e)
    case Block(_, components) => NeededBySeq(cfg, components)
    case If(_, e, t, f) =>
      NeededByExpr(cfg, e) + Needed(cfg, t) + (if f.Some? then Needed(cfg, f.value) else {})
    case Switch(_, e, cases) => NeededByExpr(cfg, e) + NeededByCases(cfg, cases)
  }

  function NeededBySeq(cfg: Config, ss: seq<Stmt>): set<string>
    decreases ss, 0
  {
    if ss == [] then {} else Needed(cfg, ss[0]) + NeededBySeq(cfg, ss[1..])
  }

  function NeededByCases(cfg: Config, cs: seq<Case>): set<string>
    decreases cs, 0
  {
    if cs == [] then {}
    else (if cs[0].body.Some? then assert cs[0].body.value < cs[0]; Needed(cfg, cs[0].body.value) else {}) + NeededByCases(cfg, cs[1..])
  }

  // ---------------------------------------------------------------- filterDeclarations

  predicate IsHoisted(needed: set<string>, s: Stmt) {
    s.Decl? && s.name.Source? && s.name.text in needed
  }

  /** The FilterDecls transform: drops needed declarations wherever they are in `s`. */
  function Filter(needed: set<string>, s: Stmt): Stmt
    decreases s, 1
  {
    match s
    case Leaf(_, _) => s
    case Decl(_) => s
    case Assign(_, _) => s
    case Block(id, components) => Block(id, FilterSeq(needed, components))
    case If(id, e, t, f) =>
      If(id, e, Filter(needed, t), if f.Some? then Some(Filter(needed, f.value)) else None)
    case Switch(id, e, cases) => Switch(id, e, FilterCases(needed, cases))
  }

  function FilterSeq(needed: set<string>, ss: seq<Stmt>): seq<Stmt>
    decreases ss, 0
  {
    if ss == [] then []
    else (if IsHoisted(needed, ss[0]) then [] else [Filter(needed, ss[0])]) + FilterSeq(needed, ss[1..])
  }

  function FilterCases(needed: set<string>, cs: seq<Case>): (r: seq<Case>)
    ensures |r| == |cs|
    decreases cs, 0
  {
    if cs == [] then []
    else
      var body := if cs[0].body.Some? then assert cs[0].body.value < cs[0]; Some(Filter(needed, cs[0].body.value)) else None;
      [Case(cs[0].caseLabel, body)] + FilterCases(needed, cs[1..])
  }

  /** The declarations `Filter` drops, in traversal order. */
  function Dropped(needed: set<string>, s: Stmt): seq<Name>
    decreases s, 1
  {
    match s
    case Leaf(_, _) => []
    case Decl(_) => []
    case Assign(_, _) => []
    case Block(_, components) => DroppedSeq(needed, components)
    case If(_, _, t, f) => Dropped(needed, t) + (if f.Some? then Dropped(needed, f.value) else [])
    case Switch(_, _, cases) => DroppedCases(needed, cases)
  }

  function DroppedSeq(needed: set<string>, ss: seq<Stmt>): seq<Name>
    decreases ss, 0
  {
    if ss == [] then []
    else
      (if IsHoisted(needed, ss[0]) then [ss[0].name] else Dropped(needed, ss[0])) + DroppedSeq(needed, ss[1..])
  }

  function DroppedCases(needed: set<string>, cs: seq<Case>): seq<Name>
    decreases cs, 0
  {
    if cs == [] then []
    else (if cs[0].body.Some? then assert cs[0].body.value < cs[0]; Dropped(needed, cs[0].body.value) else []) + DroppedCases(needed, cs[1..])
  }

  // ---------------------------------------------------------------- the transformation

  /** Splitting `s`, starting from an empty result. */
  function Split(cfg: Config, s: Stmt, st: State): (r: (SplitResult, State))
    ensures r.0.after.None? ==> r.0 == EMPTY
    decreases s, 2
  {
    if s.Decl? then (EMPTY, st)
    else if cfg.matches(s) then
      (SplitResult(None, Some(s), []), st.(needed := st.needed + Needed(cfg, s)))
    else
      match s
      case Block(_, _) => SplitFrom(cfg, s, 0, st)
      case If(_, _, t, f) =>
        var (results, hoisted, st1) := SplitBranches(cfg, s, [Some(t), f], st);
        if AnySplit(results) then RebuildIf(s, results, hoisted, st1) else (EMPTY, st1)
      case Switch(_, _, cases) =>
        var (results, hoisted, st1) := SplitBranches(cfg, s, Bodies(cases), st);
        if AnySplit(results) then RebuildSwitch(s, results, hoisted, st1) else (EMPTY, st1)
      case _ => (EMPTY, st)
  }

  /** The block preorder, from component `i` on. */
  function SplitFrom(cfg: Config, bs: Stmt, i: nat, st: State): (r: (SplitResult, State))
    requires bs.Block? && i <= |bs.components|
    ensures r.0.after.None? ==> r.0 == EMPTY
    decreases bs, 1, |bs.components| - i
  {
    if i == |bs.components| then (EMPTY, st)
    else
      var (r, st1) := Split(cfg, bs.components[i], st);
      if r.after.Some? then CutBlock(cfg, bs, i, r, st1) else SplitFrom(cfg, bs, i + 1, st1)
  }

  function CutBlock(cfg: Config, bs: Stmt, i: nat, r: SplitResult, st: State): (SplitResult, State)
    requires bs.Block? && i < |bs.components| && r.after.Some?
  {
    var prefix := bs.components[..i] + (if r.before.Some? then [r.before.value] else []);
    var before := Block(bs.id, prefix);
    var after := Block(bs.id, [r.after.value] + bs.components[i + 1..]);
    (SplitResult(Some(Filter(st.needed, before)), Some(after), r.hoisted + Dropped(st.needed, before)),
     st.(needed := st.needed + NeededBySeq(cfg, bs.components[i..])))
  }

  /** Splits every present branch; a branch with no match is kept whole as its own `before`. */
  function SplitBranches(cfg: Config, parent: Stmt, branches: seq<Option<Stmt>>, st: State)
    : (r: (seq<SplitResult>, seq<Name>, State))
    requires forall b <- branches :: b.Some? ==> b.value < parent
    ensures |r.0| == |branches|
    ensures !AnySplit(r.0) ==> r.1 == []
    decreases parent, 1, |branches|
  {
    if branches == [] then ([], [], st)
    else
      var (r, hoisted, st1) := SplitBranch(cfg, parent, branches[0], st);
      var (rs, hs, st2) := SplitBranches(cfg, parent, branches[1..], st1);
      assert ([r] + rs)[0] == r && forall x <- rs :: x in [r] + rs;
      ([r] + rs, hoisted + hs, st2)
  }

  function SplitBranch(cfg: Config, parent: Stmt, branch: Option<Stmt>, st: State)
    : (r: (SplitResult, seq<Name>, State))
    requires branch.Some? ==> branch.value < parent
    ensures r.0.after.None? ==> r.0 == SplitResult(branch, None, []) && r.1 == []
    decreases parent, 0
  {
    if branch.None? then (EMPTY, [], st)
    else
      var (r, st1) := Split(cfg, branch.value, st);
      if r.after.Some? then (r.(hoisted := []), r.hoisted, st1)
      else (SplitResult(branch, None, []), r.hoisted, st1)
  }

  function Bodies(cases: seq<Case>): (r: seq<Option<Stmt>>)
    ensures |r| == |cases| && forall i | 0 <= i < |cases| :: r[i] == cases[i].body
  {
    seq(|cases|, i requires 0 <= i < |cases| => cases[i].body)
  }

  lemma {:induction false} SplitBranchesSnoc(cfg: Config, parent: Stmt, branches: seq<Option<Stmt>>,
                                             last: Option<Stmt>, st: State)
    requires forall b <- branches + [last] :: b.Some? ==> b.value < parent
    ensures forall b <- branches :: b in branches + [last]
    ensures last in branches + [last]
    ensures var (rs, hs, st1) := SplitBranches(cfg, parent, branches, st);
            var (r, h, st2) := SplitBranch(cfg, parent, last, st1);
            SplitBranches(cfg, parent, branches + [last], st) == (rs + [r], hs + h, st2)
  {
    var all := branches + [last];
    assert all[|branches|] == last;
    assert forall b <- branches :: b in all;
    if branches == [] {
      assert all == [last] && all[1..] == [];
      var (r, h, _) := SplitBranch(cfg, parent, last, st);
      assert [r] + [] == [] + [r] && h + [] == [] + h;
    } else {
      assert all[1..] == branches[1..] + [last] && all[0] == branches[0];
      assert forall b <- all[1..] :: b in all;
      var (r0, h0, st0) := SplitBranch(cfg, parent, branches[0], st);
      SplitBranchesSnoc(cfg, parent, branches[1..], last, st0);
      var (rs, hs, st1) := SplitBranches(cfg, parent, branches[1..], st0);
      var (r, h, st2) := SplitBranch(cfg, parent, last, st1);
      Grouped([r0], rs, [r]);
      Grouped(h0, hs, h);
    }
  }

  lemma SplitBranchesNext(cfg: Config, parent: Stmt, branches: seq<Option<Stmt>>, i: nat, st: State)
    requires i < |branches| && forall b <- branches :: b.Some? ==> b.value < parent
    ensures forall b <- branches[..i + 1] :: b in branches
    ensures branches[i] in branches
    ensures var (rs, hs, st1) := SplitBranches(cfg, parent, branches[..i], st);
            var (r, h, st2) := SplitBranch(cfg, parent, branches[i], st1);
            SplitBranches(cfg, parent, branches[..i + 1], st) == (rs + [r], hs + h, st2)
  {
    assert branches[..i] + [branches[i]] == branches[..i + 1];
    SplitBranchesSnoc(cfg, parent, branches[..i], branches[i], st);
  }

  lemma AnySplitCons(r: SplitResult, results: seq<SplitResult>)
    ensures AnySplit([r] + results) == (r.after.Some? || AnySplit(results))
  {
    assert ([r] + results)[0] == r;
    assert forall x <- results :: x in [r] + results;
  }

  lemma AnySplitSnoc(results: seq<SplitResult>, r: SplitResult)
    ensures AnySplit(results + [r]) == (AnySplit(results) || r.after.Some?)
  {
    var all := results + [r];
    assert all[|results|] == r;
    assert forall x :: x in all <==> x in results || x == r;
  }

  lemma Grouped<T>(a: seq<T>, b: seq<T>, c: seq<T>)
    ensures a + (b + c) == a + b + c
  {
  }

  predicate AnySplit(results: seq<SplitResult>) {
    exists r <- results :: r.after.Some?
  }

  function Befores(results: seq<SplitResult>): (r: seq<Option<Stmt>>)
    ensures |r| == |results| && forall i | 0 <= i < |results| :: r[i] == results[i].before
  {
    seq(|results|, i requires 0 <= i < |results| => results[i].before)
  }

  function Afters(results: seq<SplitResult>): (r: seq<Option<Stmt>>)
    ensures |r| == |results| && forall i | 0 <= i < |results| :: r[i] == results[i].after
  {
    seq(|results|, i requires 0 <= i < |results| => results[i].after)
  }

  function RebuildIf(s: Stmt, results: seq<SplitResult>, hoisted: seq<Name>, st: State): (SplitResult, State)
    requires s.If? && |results| == 2
  {
    var cond := Generated("cond", st.generated);
    var beforeIf := If(s.id, PathExpression(cond), OrEmptyBlock(results[0].before), results[1].before);
    var afterIf := If(s.id, PathExpression(cond), OrEmptyBlock(results[0].after), results[1].after);
    (SplitResult(Some(NewBlock([Assign(cond, s.condition), beforeIf])), Some(afterIf), hoisted + [cond]),
     st.(generated := st.generated + 1))
  }

  function RebuildSwitch(s: Stmt, results: seq<SplitResult>, hoisted: seq<Name>, st: State): (SplitResult, State)
    requires s.Switch? && |results| == |s.cases|
  {
    var sel := Generated("selector", st.generated);
    var beforeSw := Switch(s.id, PathExpression(sel), SetCases(s.cases, Befores(results)));
    var afterSw := Switch(s.id, PathExpression(sel), SetCases(s.cases, Afters(results)));
    (SplitResult(Some(NewBlock([Assign(sel, s.selector), beforeSw])), Some(afterSw), hoisted + [sel]),
     st.(generated := st.generated + 1))
  }

  function SetCase(c: Case, body: Option<Stmt>): Case {
    Case(c.caseLabel, if c.body.Some? then Some(OrEmptyBlock(body)) else body)
  }

  /** New case bodies; an absent body of a case that had one becomes an empty block, so that no
      fallthrough is created. */
  function SetCases(cases: seq<Case>, bodies: seq<Option<Stmt>>): (r: seq<Case>)
    requires |bodies| == |cases|
    ensures |r| == |cases|
    ensures forall i | 0 <= i < |cases| :: r[i] == SetCase(cases[i], bodies[i])
  {
    seq(|cases|, i requires 0 <= i < |cases| => SetCase(cases[i], bodies[i]))
  }

  /** `splitStatementBefore`: the whole pass, with the root kept as `before` when nothing was cut off it. */
  function SplitRoot(cfg: Config, root: Stmt, firstName: nat): SplitResult {
    var r := Split(cfg, root, State(firstName, {})).0;
    if r.before.None? then r.(before := Some(root)) else r
  }

  // ---------------------------------------------------------------- the visitor

  /** The visitor itself. `result`, `neededDecls` and the name counter are updated in place. */
  class StatementSplitter {
    const cfg: Config
    var result: SplitResult
    var neededDecls: set<string>
    var generated: nat

    constructor (cfg: Config, firstName: nat)
      ensures this.cfg == cfg && result == EMPTY && Now() == State(firstName, {})
    {
      this.cfg := cfg;
      result := EMPTY;
      neededDecls := {};
      generated := firstName;
    }

    function Now(): State
      reads this
    {
      State(generated, neededDecls)
    }

    /** The precondition is the "More than one leaf statement found" check of the source. */
    method HandleStmt(stmt: Stmt) returns (split: bool)
      requires result.before.None? && result.after.None?
      modifies this
      ensures split == cfg.matches(stmt)
      ensures result == if split then old(result).(after := Some(stmt)) else old(result)
      ensures Now() == if split then old(Now()).(needed := old(neededDecls) + Needed(cfg, stmt)) else old(Now())
    {
      split := cfg.matches(stmt);
      if split {
        result := result.(after := Some(stmt));
        neededDecls := neededDecls + Needed(cfg, stmt);
      }
    }

    method Visit(s: Stmt)
      requires result == EMPTY
      modifies this
      ensures (result, Now()) == Split(cfg, s, old(Now()))
      decreases s, 3
    {
      match s {
        case Decl(_) =>
        case Block(_, _) => VisitBlock(s);
        case If(_, _, _, _) => VisitIf(s);
        case Switch(_, _, _) => VisitSwitch(s);
        case _ => var _ := HandleStmt(s);
      }
    }

    method VisitBlock(bs: Stmt)
      requires bs.Block? && result == EMPTY
      modifies this
      ensures (result, Now()) == Split(cfg, bs, old(Now()))
      decreases bs, 2
    {
      var split := HandleStmt(bs);
      if split { return; }
      for i := 0 to |bs.components|
        invariant result == EMPTY
        invariant SplitFrom(cfg, bs, 0, old(Now())) == SplitFrom(cfg, bs, i, Now())
      {
        Visit(bs.components[i]);
        if result.after.Some? {
          var prefix := bs.components[..i] + (if result.before.Some? then [result.before.value] else []);
          var suffix := [result.after.value] + bs.components[i + 1..];
          var copy := Block(bs.id, prefix);
          result := SplitResult(Some(Filter(neededDecls, copy)), Some(Block(bs.id, suffix)),
                                result.hoisted + Dropped(neededDecls, copy));
          neededDecls := neededDecls + NeededBySeq(cfg, bs.components[i..]);
          return;
        }
      }
    }

    method VisitIf(s: Stmt)
      requires s.If? && result == EMPTY
      modifies this
      ensures (result, Now()) == Split(cfg, s, old(Now()))
      decreases s, 2
    {
      var split := HandleStmt(s);
      if split { return; }
      var results, anySplit := VisitBranches(s, [Some(s.ifTrue), s.ifFalse]);
      if !anySplit { return; }
      var cond := Generated("cond", generated);
      generated := generated + 1;
      var beforeIf := If(s.id, PathExpression(cond), OrEmptyBlock(results[0].before), results[1].before);
      var afterIf := If(s.id, PathExpression(cond), OrEmptyBlock(results[0].after), results[1].after);
      result := SplitResult(Some(NewBlock([Assign(cond, s.condition), beforeIf])), Some(afterIf),
                            result.hoisted + [cond]);
    }

    method VisitSwitch(s: Stmt)
      requires s.Switch? && result == EMPTY
      modifies this
      ensures (result, Now()) == Split(cfg, s, old(Now()))
      decreases s, 2
    {
      var split := HandleStmt(s);
      if split { return; }
      var results, anySplit := VisitBranches(s, Bodies(s.cases));
      if !anySplit { return; }
      var sel := Generated("selector", generated);
      generated := generated + 1;
      var beforeSw := Switch(s.id, PathExpression(sel), SetCases(s.cases, Befores(results)));
      var afterSw := Switch(s.id, PathExpression(sel), SetCases(s.cases, Afters(results)));
      result := SplitResult(Some(NewBlock([Assign(sel, s.selector), beforeSw])), Some(afterSw),
                            result.hoisted + [sel]);
    }

    /** `splitBranches`: leaves only the hoisted declarations of the branches in `result`. */
    method VisitBranches(parent: Stmt, branches: seq<Option<Stmt>>)
      returns (results: seq<SplitResult>, anySplit: bool)
      requires result == EMPTY
      requires forall b <- branches :: b.Some? ==> b.value < parent
      modifies this
      ensures result.before.None? && result.after.None?
      ensures (results, result.hoisted, Now()) == SplitBranches(cfg, parent, branches, old(Now()))
      ensures anySplit == AnySplit(results)
      decreases parent, 1
    {
      results, anySplit := [], false;
      var hoisted: seq<Name> := [];
      assert branches[..0] == [];
      for i := 0 to |branches|
        invariant |results| == i && result == EMPTY
        invariant anySplit == AnySplit(results)
        invariant (results, hoisted, Now()) == SplitBranches(cfg, parent, branches[..i], old(Now()))
      {
        SplitBranchesNext(cfg, parent, branches, i, old(Now()));
        var r := VisitBranch(parent, branches[i]);
        AnySplitSnoc(results, r);
        anySplit := anySplit || r.after.Some?;
        results := results + [r];
        hoisted := hoisted + result.hoisted;
        result := EMPTY;
      }
      assert branches[..|branches|] == branches;
      result := SplitResult(None, None, hoisted);
    }

    /** One branch; its hoisted declarations stay in `result`. */
    method VisitBranch(parent: Stmt, branch: Option<Stmt>) returns (r: SplitResult)
      requires result == EMPTY && (branch.Some? ==> branch.value < parent)
      modifies this
      ensures (r, result.hoisted, Now()) == SplitBranch(cfg, parent, branch, old(Now()))
      decreases parent, 0
    {
      if branch.None? { return EMPTY; }
      Visit(branch.value);
      if result.after.None? {
        result := result.(before := branch);
      }
      r := result.(hoisted := []);
    }

    /** `end_apply`. */
    method Apply(root: Stmt) returns (r: SplitResult)
      requires result == EMPTY && neededDecls == {}
      modifies this
      ensures r == result == SplitRoot(cfg, root, old(generated))
    {
      Visit(root);
      if result.before.None? {
        result := result.(before := Some(root));
      }
      r := result;
    }
  }
}
