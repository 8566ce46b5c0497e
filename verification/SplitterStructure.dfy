/** The shape of a split: which declarations, leaves and switch cases end up where. */
module SplitterStructure {
  import opened Wrappers
  import opened Splitter
  import opened SplitterMeaning

  // ---------------------------------------------------------------- counting declarations and saves

  function One(b: bool): nat {
    if b then 1 else 0
  }

  /** How many declarations of `n` are in `s`. */
  function Decls(s: Stmt, n: Name): nat
    decreases s, 1
  {
    match s
    case Leaf(_, _) => 0
    case Decl(m) => One(m == n)
    case Assign(_, _) => 0
    case Block(_, components) => DeclsSeq(components, n)
    case If(_, _, t, f) => Decls(t, n) + (if f.Some? then Decls(f.value, n) else 0)
    case Switch(_, _, cases) => DeclsCases(cases, n)
  }

  function DeclsSeq(ss: seq<Stmt>, n: Name): nat
    decreases ss, 0
  {
    if ss == [] then 0 else Decls(ss[0], n) + DeclsSeq(ss[1..], n)
  }

  function DeclsCases(cs: seq<Case>, n: Name): nat
    decreases cs, 0
  {
    if cs == [] then 0
    else (if cs[0].body.Some? then assert cs[0].body.value < cs[0]; Decls(cs[0].body.value, n) else 0)
         + DeclsCases(cs[1..], n)
  }

  function DeclsOption(s: Option<Stmt>, n: Name): nat {
    if s.Some? then Decls(s.value, n) else 0
  }

  /** How many saving assignments to `n` are in `s`. */
  function Saves(s: Stmt, n: Name): nat
    decreases s, 1
  {
    match s
    case Leaf(_, _) => 0
    case Decl(_) => 0
    case Assign(m, _) => One(m == n)
    case Block(_, components) => SavesSeq(components, n)
    case If(_, _, t, f) => Saves(t, n) + (if f.Some? then Saves(f.value, n) else 0)
    case Switch(_, _, cases) => SavesCases(cases, n)
  }

  function SavesSeq(ss: seq<Stmt>, n: Name): nat
    decreases ss, 0
  {
    if ss == [] then 0 else Saves(ss[0], n) + SavesSeq(ss[1..], n)
  }

  function SavesCases(cs: seq<Case>, n: Name): nat
    decreases cs, 0
  {
    if cs == [] then 0
    else (if cs[0].body.Some? then assert cs[0].body.value < cs[0]; Saves(cs[0].body.value, n) else 0)
         + SavesCases(cs[1..], n)
  }

  function SavesOption(s: Option<Stmt>, n: Name): nat {
    if s.Some? then Saves(s.value, n) else 0
  }

  function Occurs(names: seq<Name>, n: Name): nat {
    if names == [] then 0 else One(names[0] == n) + Occurs(names[1..], n)
  }

  lemma {:induction false} OccursAppend(xs: seq<Name>, ys: seq<Name>, n: Name)
    ensures Occurs(xs + ys, n) == Occurs(xs, n) + Occurs(ys, n)
  {
    if xs == [] {
      assert xs + ys == ys;
    } else {
      assert (xs + ys)[1..] == xs[1..] + ys;
      OccursAppend(xs[1..], ys, n);
    }
  }

  lemma {:induction false} CountsAppend(xs: seq<Stmt>, ys: seq<Stmt>, n: Name)
    ensures DeclsSeq(xs + ys, n) == DeclsSeq(xs, n) + DeclsSeq(ys, n)
    ensures SavesSeq(xs + ys, n) == SavesSeq(xs, n) + SavesSeq(ys, n)
  {
    if xs == [] {
      assert xs + ys == ys;
    } else {
      assert (xs + ys)[1..] == xs[1..] + ys;
      CountsAppend(xs[1..], ys, n);
    }
  }

  lemma CountsOne(s: Stmt, n: Name)
    ensures DeclsSeq([s], n) == Decls(s, n) && SavesSeq([s], n) == Saves(s, n)
  {
    assert [s][1..] == [];
  }

  // ---------------------------------------------------------------- filtering moves declarations

  lemma {:induction false} FilterMoves(needed: set<string>, s: Stmt, n: Name)
    ensures Decls(Filter(needed, s), n) + Occurs(Dropped(needed, s), n) == Decls(s, n)
    ensures Saves(Filter(needed, s), n) == Saves(s, n)
    decreases s, 1
  {
    match s
    case Block(_, components) => FilterSeqMoves(needed, components, n);
    case If(_, _, t, f) =>
      FilterMoves(needed, t, n);
      if f.Some? { FilterMoves(needed, f.value, n); }
      OccursAppend(Dropped(needed, t), if f.Some? then Dropped(needed, f.value) else [], n);
    case Switch(_, _, cases) => FilterCasesMoves(needed, cases, n);
    case _ =>
  }

  lemma {:induction false} FilterSeqMoves(needed: set<string>, ss: seq<Stmt>, n: Name)
    ensures DeclsSeq(FilterSeq(needed, ss), n) + Occurs(DroppedSeq(needed, ss), n) == DeclsSeq(ss, n)
    ensures SavesSeq(FilterSeq(needed, ss), n) == SavesSeq(ss, n)
    decreases ss, 0
  {
    if ss != [] {
      var s := ss[0];
      FilterSeqMoves(needed, ss[1..], n);
      var dropped := if IsHoisted(needed, s) then [s.name] else Dropped(needed, s);
      var kept := if IsHoisted(needed, s) then [] else [Filter(needed, s)];
      OccursAppend(dropped, DroppedSeq(needed, ss[1..]), n);
      CountsAppend(kept, FilterSeq(needed, ss[1..]), n);
      if IsHoisted(needed, s) {
        assert [s.name][1..] == [];
      } else {
        FilterMoves(needed, s, n);
        CountsOne(Filter(needed, s), n);
      }
    }
  }

  lemma {:induction false} FilterCasesMoves(needed: set<string>, cs: seq<Case>, n: Name)
    ensures DeclsCases(FilterCases(needed, cs), n) + Occurs(DroppedCases(needed, cs), n) == DeclsCases(cs, n)
    ensures SavesCases(FilterCases(needed, cs), n) == SavesCases(cs, n)
    decreases cs, 0
  {
    if cs != [] {
      var body := cs[0].body;
      FilterCasesMoves(needed, cs[1..], n);
      if body.Some? {
        assert body.value < cs[0];
        FilterMoves(needed, body.value, n);
      }
      OccursAppend(if body.Some? then Dropped(needed, body.value) else [], DroppedCases(needed, cs[1..]), n);
      assert FilterCases(needed, cs)[1..] == FilterCases(needed, cs[1..]);
    }
  }

  // ---------------------------------------------------------------- conservation

  predicate InRange(n: Name, lo: nat, hi: nat) {
    n.Generated? && lo <= n.index < hi
  }

  /** Declarations of `n` are conserved, and a saved name is declared and assigned just once. */
  ghost predicate Balanced(r: SplitResult, decls: nat, n: Name, lo: nat, hi: nat) {
    && DeclsOption(r.before, n) + DeclsOption(r.after, n) + Occurs(r.hoisted, n)
       == decls + SavesOption(r.before, n)
    && SavesOption(r.after, n) == 0
    && SavesOption(r.before, n) <= One(InRange(n, lo, hi))
  }

  lemma {:induction false} SourceSavesNothing(s: Stmt, n: Name)
    requires IsSource(s)
    ensures Saves(s, n) == 0
    decreases s, 1
  {
    match s
    case Block(_, components) => SourceSeqSavesNothing(components, n);
    case If(_, _, t, f) =>
      SourceSavesNothing(t, n);
      if f.Some? { SourceSavesNothing(f.value, n); }
    case Switch(_, _, cases) => SourceCasesSaveNothing(cases, n);
    case _ =>
  }

  lemma {:induction false} SourceSeqSavesNothing(ss: seq<Stmt>, n: Name)
    requires IsSourceSeq(ss)
    ensures SavesSeq(ss, n) == 0
    decreases ss, 0
  {
    if ss != [] {
      SourceSavesNothing(ss[0], n);
      SourceSeqSavesNothing(ss[1..], n);
    }
  }

  lemma {:induction false} SourceCasesSaveNothing(cs: seq<Case>, n: Name)
    requires IsSourceCases(cs)
    ensures SavesCases(cs, n) == 0
    decreases cs, 0
  {
    if cs != [] {
      if cs[0].body.Some? {
        assert cs[0].body.value < cs[0];
        SourceSavesNothing(cs[0].body.value, n);
      }
      SourceCasesSaveNothing(cs[1..], n);
    }
  }

  /**
   Every declaration of the original is in exactly one of `before`, `after` and the hoisted list,
   and the list holds besides exactly the fresh variables, each assigned once, in `before`.
   */
  lemma {:induction false} SplitConservesDeclarations(cfg: Config, s: Stmt, st: State, n: Name)
    requires IsSource(s)
    ensures var (r, st1) := Split(cfg, s, st);
            && st.generated <= st1.generated
            && (r.after.Some? ==> Balanced(r, Decls(s, n), n, st.generated, st1.generated))
    decreases s, 3
  {
    SplitFindsMatch(cfg, s, st);
    SourceSavesNothing(s, n);
    if !s.Decl? && !cfg.matches(s) {
      match s
      case Block(_, components) =>
        assert components[..0] == [] && components[0..] == components;
        FromConserves(cfg, s, 0, st, n);
      case If(_, _, t, f) =>
        IfConserves(cfg, s, st, n);
      case Switch(_, _, _) =>
        SwitchConserves(cfg, s, st, n);
      case _ =>
    }
  }

  lemma {:induction false} SwitchConserves(cfg: Config, s: Stmt, st: State, n: Name)
    requires s.Switch? && IsSource(s) && !cfg.matches(s)
    ensures var (r, st1) := Split(cfg, s, st);
            && st.generated <= st1.generated
            && (r.after.Some? ==> Balanced(r, Decls(s, n), n, st.generated, st1.generated))
    decreases s, 2
  {
    BranchesConserve(cfg, s, Bodies(s.cases), st, n);
    var (rs, hs, st1) := SplitBranches(cfg, s, Bodies(s.cases), st);
    BodiesDecls(s.cases, n);
    if AnySplit(rs) {
      RebuiltSwitchBalances(s, rs, hs, st1, n);
    } else {
      assert Split(cfg, s, st).0.after.None?;
    }
  }

  lemma {:induction false} IfConserves(cfg: Config, s: Stmt, st: State, n: Name)
    requires s.If? && IsSource(s) && !cfg.matches(s)
    ensures var (r, st1) := Split(cfg, s, st);
            && st.generated <= st1.generated
            && (r.after.Some? ==> Balanced(r, Decls(s, n), n, st.generated, st1.generated))
    decreases s, 2
  {
    var branches := [Some(s.ifTrue), s.ifFalse];
    BranchesConserve(cfg, s, branches, st, n);
    var (rs, hs, st1) := SplitBranches(cfg, s, branches, st);
    IfBranchesDecls(s, n);
    if AnySplit(rs) {
      RebuiltIfBalances(s, rs, hs, st1, n);
    } else {
      assert Split(cfg, s, st).0.after.None?;
    }
  }

  lemma IfBranchesDecls(s: Stmt, n: Name)
    requires s.If?
    ensures DeclsBranches([Some(s.ifTrue), s.ifFalse], n) == Decls(s, n)
  {
    assert [Some(s.ifTrue), s.ifFalse][1..] == [s.ifFalse] && [s.ifFalse][1..] == [];
    assert DeclsBranches([s.ifFalse], n) == DeclsOption(s.ifFalse, n);
  }

  lemma {:induction false} FromConserves(cfg: Config, bs: Stmt, i: nat, st: State, n: Name)
    requires bs.Block? && i <= |bs.components| && IsSource(bs)
    ensures var (r, st1) := SplitFrom(cfg, bs, i, st);
            && st.generated <= st1.generated
            && (r.after.Some? ==> Balanced(r, Decls(bs, n), n, st.generated, st1.generated))
    decreases bs, 1, |bs.components| - i
  {
    if i < |bs.components| {
      var x, prefix, tail := bs.components[i], bs.components[..i], bs.components[i + 1..];
      var (r, st1) := Split(cfg, x, st);
      SplitConservesDeclarations(cfg, x, st, n);
      SplitFindsMatch(cfg, x, st);
      if r.after.Some? {
        assert bs.components == prefix + ([x] + tail);
        CountsAppend(prefix, [x] + tail, n);
        CountsAppend([x], tail, n);
        CountsOne(x, n);
        SourceSeqSavesNothing(prefix, n);
        SourceSeqSavesNothing(tail, n);
        CutBlockBalances(cfg, bs, i, r, st1, n);
      } else {
        FromConserves(cfg, bs, i + 1, st1, n);
      }
    }
  }

  lemma CutBlockBalances(cfg: Config, bs: Stmt, i: nat, r: SplitResult, st: State, n: Name)
    requires bs.Block? && i < |bs.components| && r.after.Some?
    ensures var res := CutBlock(cfg, bs, i, r, st).0;
            var prefix, tail := bs.components[..i], bs.components[i + 1..];
            && DeclsOption(res.before, n) + DeclsOption(res.after, n) + Occurs(res.hoisted, n)
               == DeclsSeq(prefix, n) + DeclsSeq(tail, n)
                  + DeclsOption(r.before, n) + DeclsOption(r.after, n) + Occurs(r.hoisted, n)
            && SavesOption(res.before, n) == SavesSeq(prefix, n) + SavesOption(r.before, n)
            && SavesOption(res.after, n) == SavesOption(r.after, n) + SavesSeq(tail, n)
  {
    var prefix, tail := bs.components[..i], bs.components[i + 1..];
    var last := if r.before.Some? then [r.before.value] else [];
    var before := Block(bs.id, prefix + last);
    FilterMoves(st.needed, before, n);
    OccursAppend(r.hoisted, Dropped(st.needed, before), n);
    CountsAppend(prefix, last, n);
    if r.before.Some? { CountsOne(r.before.value, n); }
    CountsAppend([r.after.value], tail, n);
    CountsOne(r.after.value, n);
  }

  function DeclsBranches(branches: seq<Option<Stmt>>, n: Name): nat {
    if branches == [] then 0 else DeclsOption(branches[0], n) + DeclsBranches(branches[1..], n)
  }

  function DeclsHalves(rs: seq<SplitResult>, n: Name): nat {
    if rs == [] then 0 else DeclsOption(rs[0].before, n) + DeclsOption(rs[0].after, n) + DeclsHalves(rs[1..], n)
  }

  function SavesBefores(rs: seq<SplitResult>, n: Name): nat {
    if rs == [] then 0 else SavesOption(rs[0].before, n) + SavesBefores(rs[1..], n)
  }

  function SavesAfters(rs: seq<SplitResult>, n: Name): nat {
    if rs == [] then 0 else SavesOption(rs[0].after, n) + SavesAfters(rs[1..], n)
  }

  lemma {:induction false} BranchesConserve(cfg: Config, parent: Stmt, branches: seq<Option<Stmt>>, st: State, n: Name)
    requires forall b <- branches :: b.Some? ==> b.value < parent && IsSource(b.value)
    ensures var (rs, hs, st1) := SplitBranches(cfg, parent, branches, st);
            && st.generated <= st1.generated
            && DeclsHalves(rs, n) + Occurs(hs, n) == DeclsBranches(branches, n) + SavesBefores(rs, n)
            && SavesAfters(rs, n) == 0
            && SavesBefores(rs, n) <= One(InRange(n, st.generated, st1.generated))
    decreases parent, 1, |branches|
  {
    if branches != [] {
      var b := branches[0];
      var (r, h, st1) := SplitBranch(cfg, parent, b, st);
      var (rs, hs, st2) := SplitBranches(cfg, parent, branches[1..], st1);
      if b.Some? {
        SplitConservesDeclarations(cfg, b.value, st, n);
        SplitFindsMatch(cfg, b.value, st);
        SourceSavesNothing(b.value, n);
      }
      BranchesConserve(cfg, parent, branches[1..], st1, n);
      OccursAppend(h, hs, n);
      assert ([r] + rs)[1..] == rs;
    }
  }

  lemma CountsOrEmptyBlock(s: Option<Stmt>, n: Name)
    ensures Decls(OrEmptyBlock(s), n) == DeclsOption(s, n) && Saves(OrEmptyBlock(s), n) == SavesOption(s, n)
  {
  }

  lemma RebuiltIfBalances(s: Stmt, rs: seq<SplitResult>, hs: seq<Name>, st: State, n: Name)
    requires s.If? && |rs| == 2
    ensures var (r, st1) := RebuildIf(s, rs, hs, st);
            var saved := One(n == Generated("cond", st.generated));
            && DeclsOption(r.before, n) + DeclsOption(r.after, n) == DeclsHalves(rs, n)
            && Occurs(r.hoisted, n) == Occurs(hs, n) + saved
            && SavesOption(r.before, n) == SavesBefores(rs, n) + saved
            && SavesOption(r.after, n) == SavesAfters(rs, n)
  {
    var cond := Generated("cond", st.generated);
    var beforeIf := If(s.id, PathExpression(cond), OrEmptyBlock(rs[0].before), rs[1].before);
    CountsOrEmptyBlock(rs[0].before, n);
    CountsOrEmptyBlock(rs[0].after, n);
    SavedFirstCounts(cond, s.condition, beforeIf, n);
    TwoHalves(rs, n);
    OccursAppend(hs, [cond], n);
    assert [cond][1..] == [];
  }

  /** A block that saves a value and goes on with `s`. */
  lemma SavedFirstCounts(m: Name, e: Expr, s: Stmt, n: Name)
    ensures Decls(NewBlock([Assign(m, e), s]), n) == Decls(s, n)
    ensures Saves(NewBlock([Assign(m, e), s]), n) == One(m == n) + Saves(s, n)
  {
    var save := Assign(m, e);
    CountsAppend([save], [s], n);
    CountsOne(save, n);
    CountsOne(s, n);
    assert [save, s] == [save] + [s];
  }

  lemma TwoHalves(rs: seq<SplitResult>, n: Name)
    requires |rs| == 2
    ensures DeclsHalves(rs, n) == DeclsOption(rs[0].before, n) + DeclsOption(rs[0].after, n)
                                + DeclsOption(rs[1].before, n) + DeclsOption(rs[1].after, n)
    ensures SavesBefores(rs, n) == SavesOption(rs[0].before, n) + SavesOption(rs[1].before, n)
    ensures SavesAfters(rs, n) == SavesOption(rs[0].after, n) + SavesOption(rs[1].after, n)
  {
    assert rs[1..] == [rs[1]] && rs[1..][1..] == [];
    assert DeclsHalves(rs[1..], n) == DeclsOption(rs[1].before, n) + DeclsOption(rs[1].after, n);
    assert SavesBefores(rs[1..], n) == SavesOption(rs[1].before, n);
    assert SavesAfters(rs[1..], n) == SavesOption(rs[1].after, n);
  }

  lemma {:induction false} SetCasesCounts(cases: seq<Case>, rs: seq<SplitResult>, n: Name)
    requires |rs| == |cases|
    ensures DeclsCases(SetCases(cases, Befores(rs)), n) + DeclsCases(SetCases(cases, Afters(rs)), n)
            == DeclsHalves(rs, n)
    ensures SavesCases(SetCases(cases, Befores(rs)), n) == SavesBefores(rs, n)
    ensures SavesCases(SetCases(cases, Afters(rs)), n) == SavesAfters(rs, n)
  {
    if cases != [] {
      SetCasesCounts(cases[1..], rs[1..], n);
      FirstCaseCounts(cases, Befores(rs), n);
      FirstCaseCounts(cases, Afters(rs), n);
      assert Befores(rs)[1..] == Befores(rs[1..]) && Afters(rs)[1..] == Afters(rs[1..]);
    }
  }

  lemma FirstCaseCounts(cases: seq<Case>, bodies: seq<Option<Stmt>>, n: Name)
    requires |bodies| == |cases| && cases != []
    ensures DeclsCases(SetCases(cases, bodies), n) ==
            DeclsOption(bodies[0], n) + DeclsCases(SetCases(cases[1..], bodies[1..]), n)
    ensures SavesCases(SetCases(cases, bodies), n) ==
            SavesOption(bodies[0], n) + SavesCases(SetCases(cases[1..], bodies[1..]), n)
  {
    assert SetCases(cases, bodies)[1..] == SetCases(cases[1..], bodies[1..]);
  }

  lemma {:induction false} BodiesDecls(cases: seq<Case>, n: Name)
    ensures DeclsBranches(Bodies(cases), n) == DeclsCases(cases, n)
  {
    if cases != [] {
      assert Bodies(cases)[1..] == Bodies(cases[1..]);
      BodiesDecls(cases[1..], n);
    }
  }

  lemma RebuiltSwitchBalances(s: Stmt, rs: seq<SplitResult>, hs: seq<Name>, st: State, n: Name)
    requires s.Switch? && |rs| == |s.cases|
    ensures var (r, st1) := RebuildSwitch(s, rs, hs, st);
            var saved := One(n == Generated("selector", st.generated));
            && DeclsOption(r.before, n) + DeclsOption(r.after, n) == DeclsHalves(rs, n)
            && Occurs(r.hoisted, n) == Occurs(hs, n) + saved
            && SavesOption(r.before, n) == SavesBefores(rs, n) + saved
            && SavesOption(r.after, n) == SavesAfters(rs, n)
  {
    var sel := Generated("selector", st.generated);
    var beforeSw := Switch(s.id, PathExpression(sel), SetCases(s.cases, Befores(rs)));
    SetCasesCounts(s.cases, rs, n);
    SavedFirstCounts(sel, s.selector, beforeSw, n);
    OccursAppend(hs, [sel], n);
    assert [sel][1..] == [];
  }

  // ---------------------------------------------------------------- before holds no matching leaf

  predicate NoLeafMatches(cfg: Config, s: Stmt)
    decreases s, 1
  {
    match s
    case Leaf(_, _) => !cfg.matches(s)
    case Decl(_) => true
    case Assign(_, _) => true
    case Block(_, components) => NoLeafMatchesSeq(cfg, components)
    case If(_, _, t, f) => NoLeafMatches(cfg, t) && (f.Some? ==> NoLeafMatches(cfg, f.value))
    case Switch(_, _, cases) => NoLeafMatchesCases(cfg, cases)
  }

  predicate NoLeafMatchesSeq(cfg: Config, ss: seq<Stmt>)
    decreases ss, 0
  {
    forall s <- ss :: NoLeafMatches(cfg, s)
  }

  predicate NoLeafMatchesCases(cfg: Config, cs: seq<Case>)
    decreases cs, 0
  {
    forall i | 0 <= i < |cs| && cs[i].body.Some? ::
      assert cs[i].body.value < cs[i]; NoLeafMatches(cfg, cs[i].body.value)
  }

  predicate NoLeafMatchesOption(cfg: Config, s: Option<Stmt>) {
    s.Some? ==> NoLeafMatches(cfg, s.value)
  }

  lemma {:induction false} FilterKeepsLeaves(cfg: Config, needed: set<string>, s: Stmt)
    requires NoLeafMatches(cfg, s)
    ensures NoLeafMatches(cfg, Filter(needed, s))
    decreases s, 1
  {
    match s
    case Block(_, components) => FilterSeqKeepsLeaves(cfg, needed, components);
    case If(_, _, t, f) =>
      FilterKeepsLeaves(cfg, needed, t);
      if f.Some? { FilterKeepsLeaves(cfg, needed, f.value); }
    case Switch(_, _, cases) => FilterCasesKeepsLeaves(cfg, needed, cases);
    case _ =>
  }

  lemma {:induction false} FilterSeqKeepsLeaves(cfg: Config, needed: set<string>, ss: seq<Stmt>)
    requires NoLeafMatchesSeq(cfg, ss)
    ensures NoLeafMatchesSeq(cfg, FilterSeq(needed, ss))
    decreases ss, 0
  {
    if ss != [] {
      FilterKeepsLeaves(cfg, needed, ss[0]);
      FilterSeqKeepsLeaves(cfg, needed, ss[1..]);
    }
  }

  lemma {:induction false} FilterCasesKeepsLeaves(cfg: Config, needed: set<string>, cs: seq<Case>)
    requires NoLeafMatchesCases(cfg, cs)
    ensures NoLeafMatchesCases(cfg, FilterCases(needed, cs))
    decreases cs, 0
  {
    if cs != [] {
      if cs[0].body.Some? {
        assert cs[0].body.value < cs[0];
        FilterKeepsLeaves(cfg, needed, cs[0].body.value);
      }
      FilterCasesKeepsLeaves(cfg, needed, cs[1..]);
      var rest := FilterCases(needed, cs[1..]);
      forall i | 0 <= i < |cs| && FilterCases(needed, cs)[i].body.Some?
        ensures NoLeafMatches(cfg, FilterCases(needed, cs)[i].body.value)
      {
        if i > 0 { assert FilterCases(needed, cs)[i] == rest[i - 1]; }
      }
    }
  }

  lemma {:induction false} NothingFoundNoLeafMatches(cfg: Config, s: Stmt)
    requires !Contains(cfg, s)
    ensures NoLeafMatches(cfg, s)
    decreases s, 1
  {
    match s
    case Block(_, components) =>
      forall x <- components ensures NoLeafMatches(cfg, x) {
        ContainsMember(cfg, components, x);
        NothingFoundNoLeafMatches(cfg, x);
      }
    case If(_, _, t, f) =>
      NothingFoundNoLeafMatches(cfg, t);
      if f.Some? { NothingFoundNoLeafMatches(cfg, f.value); }
    case Switch(_, _, cases) =>
      ContainsBodies(cfg, cases);
      forall i | 0 <= i < |cases| && cases[i].body.Some? ensures NoLeafMatches(cfg, cases[i].body.value) {
        assert cases[i].body.value < cases[i];
        assert Bodies(cases)[i] == cases[i].body;
        NothingFoundNoLeafMatches(cfg, cases[i].body.value);
      }
    case _ =>
  }

  lemma {:induction false} ContainsMember(cfg: Config, ss: seq<Stmt>, x: Stmt)
    requires x in ss && !ContainsSeq(cfg, ss)
    ensures !Contains(cfg, x)
  {
    if x != ss[0] { ContainsMember(cfg, ss[1..], x); }
  }

  lemma RebuiltHasNoMatchingLeaf(cfg: Config, s: Stmt, rs: seq<SplitResult>, hs: seq<Name>, st: State)
    requires forall r <- rs :: NoLeafMatchesOption(cfg, r.before)
    ensures s.If? && |rs| == 2 ==> NoLeafMatchesOption(cfg, RebuildIf(s, rs, hs, st).0.before)
    ensures s.Switch? && |rs| == |s.cases| ==> NoLeafMatchesOption(cfg, RebuildSwitch(s, rs, hs, st).0.before)
  {
    if s.If? && |rs| == 2 {
      assert rs[0] in rs && rs[1] in rs;
      assert NoLeafMatches(cfg, OrEmptyBlock(rs[0].before));
      assert NoLeafMatches(cfg, RebuildIf(s, rs, hs, st).0.before.value.components[1]);
    }
    if s.Switch? && |rs| == |s.cases| {
      var set1 := SetCases(s.cases, Befores(rs));
      forall i | 0 <= i < |set1| && set1[i].body.Some? ensures NoLeafMatches(cfg, set1[i].body.value) {
        assert rs[i] in rs;
      }
      assert NoLeafMatchesCases(cfg, set1);
      assert NoLeafMatches(cfg, RebuildSwitch(s, rs, hs, st).0.before.value.components[1]);
    }
  }

  /** No original leaf satisfying the predicate is left in `before`. */
  lemma {:induction false} BeforeHasNoMatchingLeaf(cfg: Config, s: Stmt, st: State)
    ensures NoLeafMatchesOption(cfg, Split(cfg, s, st).0.before)
    decreases s, 3
  {
    SplitFindsMatch(cfg, s, st);
    if Contains(cfg, s) && !cfg.matches(s) {
      match s
      case Block(_, components) =>
        assert components[..0] == [];
        FromHasNoMatchingLeaf(cfg, s, 0, st);
      case If(_, _, t, f) =>
        BranchesHaveNoMatchingLeaf(cfg, s, [Some(t), f], st);
        var (rs, hs, st1) := SplitBranches(cfg, s, [Some(t), f], st);
        RebuiltHasNoMatchingLeaf(cfg, s, rs, hs, st1);
      case Switch(_, _, cases) =>
        BranchesHaveNoMatchingLeaf(cfg, s, Bodies(cases), st);
        var (rs, hs, st1) := SplitBranches(cfg, s, Bodies(cases), st);
        RebuiltHasNoMatchingLeaf(cfg, s, rs, hs, st1);
      case _ =>
    }
  }

  lemma {:induction false} FromHasNoMatchingLeaf(cfg: Config, bs: Stmt, i: nat, st: State)
    requires bs.Block? && i <= |bs.components|
    requires NoLeafMatchesSeq(cfg, bs.components[..i])
    ensures NoLeafMatchesOption(cfg, SplitFrom(cfg, bs, i, st).0.before)
    decreases bs, 1, |bs.components| - i
  {
    if i < |bs.components| {
      var x := bs.components[i];
      var (r, st1) := Split(cfg, x, st);
      SplitFindsMatch(cfg, x, st);
      if r.after.Some? {
        BeforeHasNoMatchingLeaf(cfg, x, st);
        FilterSeqKeepsLeaves(cfg, st1.needed,
                             bs.components[..i] + (if r.before.Some? then [r.before.value] else []));
      } else {
        NothingFoundNoLeafMatches(cfg, x);
        FromHasNoMatchingLeaf(cfg, bs, i + 1, st1);
      }
    }
  }

  lemma {:induction false} BranchesHaveNoMatchingLeaf(cfg: Config, parent: Stmt, branches: seq<Option<Stmt>>, st: State)
    requires forall b <- branches :: b.Some? ==> b.value < parent
    ensures forall r <- SplitBranches(cfg, parent, branches, st).0 :: NoLeafMatchesOption(cfg, r.before)
    decreases parent, 1, |branches|
  {
    if branches != [] {
      var b := branches[0];
      if b.Some? {
        BeforeHasNoMatchingLeaf(cfg, b.value, st);
        SplitFindsMatch(cfg, b.value, st);
        if !Contains(cfg, b.value) { NothingFoundNoLeafMatches(cfg, b.value); }
      }
      BranchesHaveNoMatchingLeaf(cfg, parent, branches[1..], SplitBranch(cfg, parent, b, st).2);
    }
  }

  // ---------------------------------------------------------------- fallthrough

  /** Both halves of a split `switch` keep the labels, and fall through exactly where it did. */
  lemma {:induction false} SwitchKeepsFallthrough(cfg: Config, s: Stmt, st: State, i: nat)
    requires s.Switch? && !cfg.matches(s) && Contains(cfg, s) && i < |s.cases|
    ensures var r := Split(cfg, s, st).0;
            && r.before.Some? && r.before.value.Block? && |r.before.value.components| == 2
            && r.before.value.components[1].Switch?
            && r.after.Some? && r.after.value.Switch?
            && var b, a := r.before.value.components[1].cases, r.after.value.cases;
            && |b| == |a| == |s.cases|
            && b[i].caseLabel == a[i].caseLabel == s.cases[i].caseLabel
            && (b[i].body.None? <==> s.cases[i].body.None?)
            && (a[i].body.None? <==> s.cases[i].body.None?)
  {
    SplitFindsMatch(cfg, s, st);
    var (rs, _, _) := SplitBranches(cfg, s, Bodies(s.cases), st);
    AbsentBranchStaysAbsent(cfg, s, Bodies(s.cases), st, i);
  }

  lemma {:induction false} AbsentBranchStaysAbsent(cfg: Config, parent: Stmt, branches: seq<Option<Stmt>>, st: State, i: nat)
    requires forall b <- branches :: b.Some? ==> b.value < parent
    requires i < |branches|
    ensures branches[i].None? ==> SplitBranches(cfg, parent, branches, st).0[i] == EMPTY
    decreases |branches|
  {
    if i > 0 {
      AbsentBranchStaysAbsent(cfg, parent, branches[1..], SplitBranch(cfg, parent, branches[0], st).2, i - 1);
    }
  }

  // ---------------------------------------------------------------- the order of the hoisted variables

  /** The numbers of the saved conditions and selectors, in order. */
  function Saved(names: seq<Name>): seq<nat> {
    if names == [] then [] else SavedBy(names[0]) + Saved(names[1..])
  }

  function SavedBy(n: Name): seq<nat> {
    if n.Generated? then [n.index] else []
  }

  function UpFrom(lo: nat, hi: nat): seq<nat>
    requires lo <= hi
    decreases hi
  {
    if lo == hi then [] else UpFrom(lo, hi - 1) + [hi - 1]
  }

  lemma {:induction false} UpFromAppend(lo: nat, mid: nat, hi: nat)
    requires lo <= mid <= hi
    ensures UpFrom(lo, mid) + UpFrom(mid, hi) == UpFrom(lo, hi)
    decreases hi
  {
    if mid == hi {
      assert UpFrom(lo, mid) + [] == UpFrom(lo, mid);
    } else {
      UpFromAppend(lo, mid, hi - 1);
      Grouped(UpFrom(lo, mid), UpFrom(mid, hi - 1), [hi - 1]);
    }
  }

  lemma {:induction false} SavedAppend(a: seq<Name>, b: seq<Name>)
    ensures Saved(a + b) == Saved(a) + Saved(b)
  {
    if a == [] {
      assert a + b == b;
    } else {
      SavedAppend(a[1..], b);
      assert (a + b)[1..] == a[1..] + b && (a + b)[0] == a[0];
      Grouped(SavedBy(a[0]), Saved(a[1..]), Saved(b));
    }
  }

  lemma SavedOne(n: Name)
    ensures Saved([n]) == SavedBy(n)
  {
    assert [n][1..] == [];
  }

  lemma {:induction false} NoneSaved(names: seq<Name>)
    requires forall n | n in names :: n.Source?
    ensures Saved(names) == []
  {
    if names != [] {
      assert names[0] in names;
      NoneSaved(names[1..]);
    }
  }

  lemma {:induction false} DroppedAreSource(needed: set<string>, s: Stmt)
    ensures forall n | n in Dropped(needed, s) :: n.Source?
    decreases s, 1
  {
    match s
    case Block(_, components) => DroppedSeqAreSource(needed, components);
    case If(_, _, t, f) =>
      DroppedAreSource(needed, t);
      if f.Some? { DroppedAreSource(needed, f.value); }
    case Switch(_, _, cases) => DroppedCasesAreSource(needed, cases);
    case _ =>
  }

  lemma {:induction false} DroppedSeqAreSource(needed: set<string>, ss: seq<Stmt>)
    ensures forall n | n in DroppedSeq(needed, ss) :: n.Source?
    decreases ss, 0
  {
    if ss != [] {
      DroppedAreSource(needed, ss[0]);
      DroppedSeqAreSource(needed, ss[1..]);
    }
  }

  lemma {:induction false} DroppedCasesAreSource(needed: set<string>, cs: seq<Case>)
    ensures forall n | n in DroppedCases(needed, cs) :: n.Source?
    decreases cs, 0
  {
    if cs != [] {
      if cs[0].body.Some? {
        assert cs[0].body.value < cs[0];
        DroppedAreSource(needed, cs[0].body.value);
      }
      DroppedCasesAreSource(needed, cs[1..]);
    }
  }

  /** Variables for saved conditions and selectors are hoisted in the order in which their names are
      generated, those of inner statements first. */
  lemma {:induction false} SavesInOrder(cfg: Config, s: Stmt, st: State)
    ensures var (r, st1) := Split(cfg, s, st);
            st.generated <= st1.generated && Saved(r.hoisted) == UpFrom(st.generated, st1.generated)
    decreases s, 3
  {
    if !s.Decl? && !cfg.matches(s) {
      match s
      case Block(_, _) => FromSavesInOrder(cfg, s, 0, st);
      case If(_, _, t, f) =>
        BranchesSaveInOrder(cfg, s, [Some(t), f], st);
        var (rs, hs, st1) := SplitBranches(cfg, s, [Some(t), f], st);
        SavesOneMore(hs, Generated("cond", st1.generated), st.generated);
      case Switch(_, _, cases) =>
        BranchesSaveInOrder(cfg, s, Bodies(cases), st);
        var (rs, hs, st1) := SplitBranches(cfg, s, Bodies(cases), st);
        SavesOneMore(hs, Generated("selector", st1.generated), st.generated);
      case _ =>
    }
  }

  lemma SavesOneMore(hs: seq<Name>, n: Name, lo: nat)
    requires n.Generated? && lo <= n.index && Saved(hs) == UpFrom(lo, n.index)
    ensures Saved(hs + [n]) == UpFrom(lo, n.index + 1)
  {
    SavedAppend(hs, [n]);
    SavedOne(n);
  }

  lemma {:induction false} FromSavesInOrder(cfg: Config, bs: Stmt, i: nat, st: State)
    requires bs.Block? && i <= |bs.components|
    ensures var (r, st1) := SplitFrom(cfg, bs, i, st);
            st.generated <= st1.generated && Saved(r.hoisted) == UpFrom(st.generated, st1.generated)
    decreases bs, 1, |bs.components| - i
  {
    if i < |bs.components| {
      SavesInOrder(cfg, bs.components[i], st);
      var (r, st1) := Split(cfg, bs.components[i], st);
      if r.after.Some? {
        var prefix := bs.components[..i] + (if r.before.Some? then [r.before.value] else []);
        var dropped := Dropped(st1.needed, Block(bs.id, prefix));
        DroppedAreSource(st1.needed, Block(bs.id, prefix));
        NoneSaved(dropped);
        SavedAppend(r.hoisted, dropped);
        assert Saved(r.hoisted) + [] == Saved(r.hoisted);
      } else {
        FromSavesInOrder(cfg, bs, i + 1, st1);
        assert UpFrom(st.generated, st1.generated) == [];
        UpFromAppend(st.generated, st1.generated, SplitFrom(cfg, bs, i + 1, st1).1.generated);
        assert [] + UpFrom(st1.generated, SplitFrom(cfg, bs, i + 1, st1).1.generated) == UpFrom(st1.generated, SplitFrom(cfg, bs, i + 1, st1).1.generated);
      }
    }
  }

  lemma {:induction false} BranchesSaveInOrder(cfg: Config, parent: Stmt, branches: seq<Option<Stmt>>, st: State)
    requires forall b <- branches :: b.Some? ==> b.value < parent
    ensures var (rs, hs, st1) := SplitBranches(cfg, parent, branches, st);
            st.generated <= st1.generated && Saved(hs) == UpFrom(st.generated, st1.generated)
    decreases parent, 1, |branches|
  {
    if branches != [] {
      if branches[0].Some? { SavesInOrder(cfg, branches[0].value, st); }
      var (r, hoisted, st1) := SplitBranch(cfg, parent, branches[0], st);
      BranchesSaveInOrder(cfg, parent, branches[1..], st1);
      var (rs, hs, st2) := SplitBranches(cfg, parent, branches[1..], st1);
      SavedAppend(hoisted, hs);
      UpFromAppend(st.generated, st1.generated, st2.generated);
    }
  }
}
