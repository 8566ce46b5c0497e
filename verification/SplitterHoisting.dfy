/** The promise of ir/splitter.h that declarations which `after` would no longer see are hoisted:
    what is collected as needed, what `after` uses, and which declarations are left behind. */
module SplitterHoisting {
  import opened Wrappers
  import opened Splitter
  import opened SplitterMeaning
  import opened SplitterStructure
  import opened SplitterPreserves

  // ---------------------------------------------------------------- what is collected

  /** The names a split of `s` collects, from the statement alone. */
  function Collected(cfg: Config, s: Stmt): set<string>
    decreases s, 1
  {
    if !Contains(cfg, s) then {}
    else if cfg.matches(s) then Needed(cfg, s)
    else
      match s
      case Block(_, components) => CollectedSeq(cfg, components)
      case If(_, _, t, f) => Collected(cfg, t) + (if f.Some? then Collected(cfg, f.value) else {})
      case Switch(_, _, cases) => CollectedCases(cfg, cases)
      case _ => {}
  }

  /** A block collects what its first component with a match does, and all uses from there on. */
  function CollectedSeq(cfg: Config, ss: seq<Stmt>): set<string>
    decreases ss, 0
  {
    if ss == [] then {}
    else if Contains(cfg, ss[0]) then Collected(cfg, ss[0]) + NeededBySeq(cfg, ss)
    else CollectedSeq(cfg, ss[1..])
  }

  function CollectedCases(cfg: Config, cases: seq<Case>): set<string>
    decreases cases, 0
  {
    if cases == [] then {}
    else
      (if cases[0].body.Some? then assert cases[0].body.value < cases[0]; Collected(cfg, cases[0].body.value) else {})
      + CollectedCases(cfg, cases[1..])
  }

  function CollectedOption(cfg: Config, s: Option<Stmt>): set<string> {
    if s.Some? then Collected(cfg, s.value) else {}
  }

  function CollectedBranches(cfg: Config, branches: seq<Option<Stmt>>): set<string> {
    if branches == [] then {} else CollectedOption(cfg, branches[0]) + CollectedBranches(cfg, branches[1..])
  }

  lemma {:induction false} BodiesCollected(cfg: Config, cases: seq<Case>)
    ensures CollectedBranches(cfg, Bodies(cases)) == CollectedCases(cfg, cases)
  {
    if cases != [] {
      BodiesCollected(cfg, cases[1..]);
      assert Bodies(cases)[1..] == Bodies(cases[1..]);
    }
  }

  /** Splitting adds exactly these to what is needed. */
  lemma {:induction false} SplitCollects(cfg: Config, s: Stmt, st: State)
    ensures Split(cfg, s, st).1.needed == st.needed + Collected(cfg, s)
    decreases s, 3
  {
    SplitFindsMatch(cfg, s, st);
    if Contains(cfg, s) && !cfg.matches(s) {
      match s
      case Block(_, components) =>
        assert components[0..] == components;
        SplitFromCollects(cfg, s, 0, st);
      case If(_, _, t, f) =>
        BranchesCollect(cfg, s, [Some(t), f], st);
        assert [Some(t), f][1..] == [f] && [f][1..] == [];
        assert CollectedBranches(cfg, [f]) == CollectedOption(cfg, f);
      case Switch(_, _, cases) =>
        BranchesCollect(cfg, s, Bodies(cases), st);
        BodiesCollected(cfg, cases);
      case _ =>
    }
  }

  lemma {:induction false} SplitFromCollects(cfg: Config, bs: Stmt, i: nat, st: State)
    requires bs.Block? && i <= |bs.components|
    ensures SplitFrom(cfg, bs, i, st).1.needed == st.needed + CollectedSeq(cfg, bs.components[i..])
    decreases bs, 1, |bs.components| - i
  {
    if i < |bs.components| {
      SplitFindsMatch(cfg, bs.components[i], st);
      SplitCollects(cfg, bs.components[i], st);
      assert bs.components[i..][1..] == bs.components[i + 1..];
      SplitFromCollects(cfg, bs, i + 1, st);
    }
  }

  lemma {:induction false} BranchesCollect(cfg: Config, parent: Stmt, branches: seq<Option<Stmt>>, st: State)
    requires forall b <- branches :: b.Some? ==> b.value < parent
    ensures SplitBranches(cfg, parent, branches, st).2.needed == st.needed + CollectedBranches(cfg, branches)
    decreases parent, 1, |branches|
  {
    if branches != [] {
      if branches[0].Some? { SplitCollects(cfg, branches[0].value, st); }
      BranchesCollect(cfg, parent, branches[1..], SplitBranch(cfg, parent, branches[0], st).2);
    }
  }

  // ---------------------------------------------------------------- what `after` uses

  /** Some resolved use of `x` is at a match or behind a component that contains one. */
  predicate UsedAfter(cfg: Config, s: Stmt, x: string)
    decreases s, 1
  {
    Contains(cfg, s) &&
    if cfg.matches(s) then x in Needed(cfg, s)
    else
      match s
      case Block(_, components) => UsedAfterSeq(cfg, components, x)
      case If(_, _, t, f) => UsedAfter(cfg, t, x) || (f.Some? && UsedAfter(cfg, f.value, x))
      case Switch(_, _, cases) => UsedAfterCases(cfg, cases, x)
      case _ => false
  }

  predicate UsedAfterSeq(cfg: Config, ss: seq<Stmt>, x: string)
    decreases ss, 0
  {
    ss != [] &&
    if Contains(cfg, ss[0]) then UsedAfter(cfg, ss[0], x) || x in NeededBySeq(cfg, ss[1..])
    else UsedAfterSeq(cfg, ss[1..], x)
  }

  predicate UsedAfterCases(cfg: Config, cases: seq<Case>, x: string)
    decreases cases, 0
  {
    cases != [] &&
    ((cases[0].body.Some? && (assert cases[0].body.value < cases[0]; UsedAfter(cfg, cases[0].body.value, x)))
     || UsedAfterCases(cfg, cases[1..], x))
  }

  predicate UsedAfterOption(cfg: Config, s: Option<Stmt>, x: string) {
    s.Some? && UsedAfter(cfg, s.value, x)
  }

  function NeededByOption(cfg: Config, s: Option<Stmt>): set<string> {
    if s.Some? then Needed(cfg, s.value) else {}
  }

  /** These are the uses in `after`. */
  lemma {:induction false} AfterUses(cfg: Config, s: Stmt, st: State, x: string)
    ensures x in NeededByOption(cfg, Split(cfg, s, st).0.after) <==> UsedAfter(cfg, s, x)
    decreases s, 3
  {
    SplitFindsMatch(cfg, s, st);
    if Contains(cfg, s) && !cfg.matches(s) {
      match s
      case Block(_, components) =>
        assert components[0..] == components;
        FromUses(cfg, s, 0, st, x);
      case If(_, _, t, f) =>
        var branches := [Some(t), f];
        BranchesUse(cfg, s, branches, st, x);
        var (rs, _, _) := SplitBranches(cfg, s, branches, st);
        IfAfterUses(cfg, s, st, x);
      case Switch(_, _, cases) =>
        BranchesUse(cfg, s, Bodies(cases), st, x);
        SwitchAfterUses(cfg, s, st, x);
      case _ =>
    }
  }

  lemma {:induction false} FromUses(cfg: Config, bs: Stmt, i: nat, st: State, x: string)
    requires bs.Block? && i <= |bs.components|
    ensures x in NeededByOption(cfg, SplitFrom(cfg, bs, i, st).0.after) <==> UsedAfterSeq(cfg, bs.components[i..], x)
    decreases bs, 1, |bs.components| - i
  {
    if i < |bs.components| {
      var (r, st1) := Split(cfg, bs.components[i], st);
      SplitFindsMatch(cfg, bs.components[i], st);
      AfterUses(cfg, bs.components[i], st, x);
      assert bs.components[i..][1..] == bs.components[i + 1..];
      if r.after.Some? {
        var suffix := [r.after.value] + bs.components[i + 1..];
        assert suffix[0] == r.after.value && suffix[1..] == bs.components[i + 1..];
        assert NeededBySeq(cfg, suffix) == Needed(cfg, r.after.value) + NeededBySeq(cfg, bs.components[i + 1..]);
      } else {
        FromUses(cfg, bs, i + 1, st1, x);
      }
    }
  }

  lemma {:induction false} BranchesUse(cfg: Config, parent: Stmt, branches: seq<Option<Stmt>>, st: State, x: string)
    requires forall b <- branches :: b.Some? ==> b.value < parent
    ensures var rs := SplitBranches(cfg, parent, branches, st).0;
            forall i | 0 <= i < |branches| :: x in NeededByOption(cfg, rs[i].after) <==> UsedAfterOption(cfg, branches[i], x)
    decreases parent, 1, |branches|
  {
    if branches != [] {
      if branches[0].Some? {
        AfterUses(cfg, branches[0].value, st, x);
        SplitFindsMatch(cfg, branches[0].value, st);
      }
      BranchesUse(cfg, parent, branches[1..], SplitBranch(cfg, parent, branches[0], st).2, x);
    }
  }

  lemma IfAfterUses(cfg: Config, s: Stmt, st: State, x: string)
    requires s.If? && Contains(cfg, s) && !cfg.matches(s)
    requires var rs := SplitBranches(cfg, s, [Some(s.ifTrue), s.ifFalse], st).0;
             && (x in NeededByOption(cfg, rs[0].after) <==> UsedAfter(cfg, s.ifTrue, x))
             && (x in NeededByOption(cfg, rs[1].after) <==> UsedAfterOption(cfg, s.ifFalse, x))
    ensures x in NeededByOption(cfg, Split(cfg, s, st).0.after) <==> UsedAfter(cfg, s, x)
  {
    SplitFindsMatch(cfg, s, st);
    var rs := SplitBranches(cfg, s, [Some(s.ifTrue), s.ifFalse], st).0;
    assert Needed(cfg, OrEmptyBlock(rs[0].after)) == NeededByOption(cfg, rs[0].after);
  }

  lemma SwitchAfterUses(cfg: Config, s: Stmt, st: State, x: string)
    requires s.Switch? && Contains(cfg, s) && !cfg.matches(s)
    requires var rs := SplitBranches(cfg, s, Bodies(s.cases), st).0;
             forall i | 0 <= i < |s.cases| :: x in NeededByOption(cfg, rs[i].after) <==> UsedAfterOption(cfg, s.cases[i].body, x)
    ensures x in NeededByOption(cfg, Split(cfg, s, st).0.after) <==> UsedAfter(cfg, s, x)
  {
    SplitFindsMatch(cfg, s, st);
    var rs := SplitBranches(cfg, s, Bodies(s.cases), st).0;
    CasesUse(cfg, s.cases, rs, x);
  }

  lemma {:induction false} CasesUse(cfg: Config, cases: seq<Case>, rs: seq<SplitResult>, x: string)
    requires |rs| == |cases|
    requires forall i | 0 <= i < |cases| :: x in NeededByOption(cfg, rs[i].after) <==> UsedAfterOption(cfg, cases[i].body, x)
    ensures x in NeededByCases(cfg, SetCases(cases, Afters(rs))) <==> UsedAfterCases(cfg, cases, x)
  {
    if cases != [] {
      CasesUse(cfg, cases[1..], rs[1..], x);
      assert SetCases(cases, Afters(rs))[1..] == SetCases(cases[1..], Afters(rs[1..]));
    }
  }

  // ---------------------------------------------------------------- what stays in `before`

  /** `x` is declared in the part of `s` that comes before the cut. */
  predicate InBefore(cfg: Config, s: Stmt, x: string)
    decreases s, 1
  {
    if !Contains(cfg, s) then Decls(s, Source(x)) > 0
    else if cfg.matches(s) then false
    else
      match s
      case Block(_, components) => InBeforeSeq(cfg, components, x)
      case If(_, _, t, f) => InBefore(cfg, t, x) || (f.Some? && InBefore(cfg, f.value, x))
      case Switch(_, _, cases) => InBeforeCases(cfg, cases, x)
      case _ => false
  }

  predicate InBeforeSeq(cfg: Config, ss: seq<Stmt>, x: string)
    decreases ss, 0
  {
    ss != [] && (InBefore(cfg, ss[0], x) || (!Contains(cfg, ss[0]) && InBeforeSeq(cfg, ss[1..], x)))
  }

  predicate InBeforeCases(cfg: Config, cases: seq<Case>, x: string)
    decreases cases, 0
  {
    cases != [] &&
    ((cases[0].body.Some? && (assert cases[0].body.value < cases[0]; InBefore(cfg, cases[0].body.value, x)))
     || InBeforeCases(cfg, cases[1..], x))
  }

  /** What the first component with a match collects; that is all a block knows when it filters. */
  function CollectedFirst(cfg: Config, ss: seq<Stmt>): set<string> {
    if ss == [] then {} else if Contains(cfg, ss[0]) then Collected(cfg, ss[0]) else CollectedFirst(cfg, ss[1..])
  }

  /** A declaration of `x` before the cut is not hoisted: no block around it knows of a use when it
      is cut. Branches know what the branches before them have collected. */
  predicate Stays(cfg: Config, s: Stmt, needed: set<string>, x: string)
    decreases s, 1
  {
    if !Contains(cfg, s) then Decls(s, Source(x)) > 0
    else if cfg.matches(s) then false
    else
      match s
      case Block(_, components) => InBeforeSeq(cfg, components, x) && x !in needed + CollectedFirst(cfg, components)
      case If(_, _, t, f) =>
        Stays(cfg, t, needed, x) || (f.Some? && Stays(cfg, f.value, needed + Collected(cfg, t), x))
      case Switch(_, _, cases) => StaysCases(cfg, cases, needed, x)
      case _ => false
  }

  predicate StaysCases(cfg: Config, cases: seq<Case>, needed: set<string>, x: string)
    decreases cases, 0
  {
    cases != [] &&
    if cases[0].body.Some? then
      assert cases[0].body.value < cases[0];
      Stays(cfg, cases[0].body.value, needed, x)
      || StaysCases(cfg, cases[1..], needed + Collected(cfg, cases[0].body.value), x)
    else StaysCases(cfg, cases[1..], needed, x)
  }

  predicate StaysOption(cfg: Config, s: Option<Stmt>, needed: set<string>, x: string) {
    s.Some? && Stays(cfg, s.value, needed, x)
  }

  predicate StaysBranches(cfg: Config, branches: seq<Option<Stmt>>, needed: set<string>, x: string) {
    branches != [] &&
    (StaysOption(cfg, branches[0], needed, x)
     || StaysBranches(cfg, branches[1..], needed + CollectedOption(cfg, branches[0]), x))
  }

  lemma {:induction false} BodiesStay(cfg: Config, cases: seq<Case>, needed: set<string>, x: string)
    ensures StaysBranches(cfg, Bodies(cases), needed, x) <==> StaysCases(cfg, cases, needed, x)
    decreases |cases|
  {
    if cases != [] {
      assert Bodies(cases)[1..] == Bodies(cases[1..]);
      BodiesStay(cfg, cases[1..], needed + CollectedOption(cfg, cases[0].body), x);
      if cases[0].body.None? { assert needed + {} == needed; }
    }
  }

  /** What is not collected stays wherever it is. */
  lemma {:induction false} StaysUnlessNeeded(cfg: Config, s: Stmt, needed: set<string>, x: string)
    requires x !in needed + Collected(cfg, s)
    ensures Stays(cfg, s, needed, x) <==> InBefore(cfg, s, x)
    decreases s, 1
  {
    if Contains(cfg, s) && !cfg.matches(s) {
      match s
      case Block(_, components) => FirstIsCollected(cfg, components, x);
      case If(_, _, t, f) =>
        StaysUnlessNeeded(cfg, t, needed, x);
        if f.Some? { StaysUnlessNeeded(cfg, f.value, needed + Collected(cfg, t), x); }
      case Switch(_, _, cases) => StaysUnlessNeededCases(cfg, cases, needed, x);
      case _ =>
    }
  }

  lemma {:induction false} FirstIsCollected(cfg: Config, ss: seq<Stmt>, x: string)
    ensures x in CollectedFirst(cfg, ss) ==> x in CollectedSeq(cfg, ss)
  {
    if ss != [] && !Contains(cfg, ss[0]) { FirstIsCollected(cfg, ss[1..], x); }
  }

  lemma {:induction false} StaysUnlessNeededCases(cfg: Config, cases: seq<Case>, needed: set<string>, x: string)
    requires x !in needed + CollectedCases(cfg, cases)
    ensures StaysCases(cfg, cases, needed, x) <==> InBeforeCases(cfg, cases, x)
    decreases cases, 0
  {
    if cases != [] {
      if cases[0].body.Some? {
        assert cases[0].body.value < cases[0];
        StaysUnlessNeeded(cfg, cases[0].body.value, needed, x);
      }
      StaysUnlessNeededCases(cfg, cases[1..], needed + CollectedOption(cfg, cases[0].body), x);
      if cases[0].body.None? { assert needed + {} == needed; }
    }
  }

  /** Declarations are components of blocks and nothing else, as in P4's grammar. */
  predicate Placed(s: Stmt)
    decreases s, 1
  {
    match s
    case Block(_, components) => PlacedSeq(components)
    case If(_, _, t, f) => !t.Decl? && Placed(t) && (f.Some? ==> !f.value.Decl? && Placed(f.value))
    case Switch(_, _, cases) => PlacedCases(cases)
    case _ => true
  }

  predicate PlacedSeq(ss: seq<Stmt>)
    decreases ss, 0
  {
    ss == [] || (Placed(ss[0]) && PlacedSeq(ss[1..]))
  }

  predicate PlacedCases(cases: seq<Case>)
    decreases cases, 0
  {
    cases == [] ||
    ((cases[0].body.Some? ==>
        (assert cases[0].body.value < cases[0]; !cases[0].body.value.Decl? && Placed(cases[0].body.value)))
     && PlacedCases(cases[1..]))
  }

  predicate PlacedOption(s: Option<Stmt>) {
    s.Some? ==> !s.value.Decl? && Placed(s.value)
  }

  /** Filtering takes out the declarations of needed names, and those only. */
  lemma {:induction false} FilterDecls(needed: set<string>, s: Stmt, x: string)
    requires Placed(s) && !s.Decl?
    ensures Decls(Filter(needed, s), Source(x)) == if x in needed then 0 else Decls(s, Source(x))
    ensures Placed(Filter(needed, s))
    decreases s, 1
  {
    match s
    case Block(_, components) => FilterSeqDecls(needed, components, x);
    case If(_, _, t, f) =>
      FilterDecls(needed, t, x);
      if f.Some? { FilterDecls(needed, f.value, x); }
    case Switch(_, _, cases) => FilterCasesDecls(needed, cases, x);
    case _ =>
  }

  lemma {:induction false} FilterSeqDecls(needed: set<string>, ss: seq<Stmt>, x: string)
    requires PlacedSeq(ss)
    ensures DeclsSeq(FilterSeq(needed, ss), Source(x)) == if x in needed then 0 else DeclsSeq(ss, Source(x))
    ensures PlacedSeq(FilterSeq(needed, ss))
    decreases ss, 0
  {
    if ss != [] {
      FilterSeqDecls(needed, ss[1..], x);
      if !ss[0].Decl? { FilterDecls(needed, ss[0], x); }
      var rest := FilterSeq(needed, ss[1..]);
      if IsHoisted(needed, ss[0]) {
        assert [] + rest == rest;
      } else {
        var kept := [Filter(needed, ss[0])] + rest;
        assert kept[0] == Filter(needed, ss[0]) && kept[1..] == rest;
      }
    }
  }

  lemma {:induction false} FilterCasesDecls(needed: set<string>, cases: seq<Case>, x: string)
    requires PlacedCases(cases)
    ensures DeclsCases(FilterCases(needed, cases), Source(x)) == if x in needed then 0 else DeclsCases(cases, Source(x))
    ensures PlacedCases(FilterCases(needed, cases))
    decreases cases, 0
  {
    if cases != [] {
      FilterCasesDecls(needed, cases[1..], x);
      if cases[0].body.Some? {
        assert cases[0].body.value < cases[0];
        FilterDecls(needed, cases[0].body.value, x);
      }
      assert FilterCases(needed, cases)[1..] == FilterCases(needed, cases[1..]);
    }
  }

  lemma {:induction false} PlacedSeqAppend(a: seq<Stmt>, b: seq<Stmt>)
    ensures PlacedSeq(a + b) <==> PlacedSeq(a) && PlacedSeq(b)
  {
    if a == [] {
      assert a + b == b;
    } else {
      assert (a + b)[1..] == a[1..] + b;
      PlacedSeqAppend(a[1..], b);
    }
  }

  /** Some half in `before` declares `x`. */
  predicate AnyDeclares(rs: seq<SplitResult>, x: string) {
    rs != [] && (DeclsOption(rs[0].before, Source(x)) > 0 || AnyDeclares(rs[1..], x))
  }

  predicate AllPlaced(rs: seq<SplitResult>) {
    rs == [] || (PlacedOption(rs[0].before) && AllPlaced(rs[1..]))
  }

  /** Which declarations are in `before`. */
  lemma {:induction false} BeforeDecls(cfg: Config, s: Stmt, st: State, x: string)
    requires Placed(s) && Contains(cfg, s)
    ensures var b := Split(cfg, s, st).0.before;
            PlacedOption(b) && (DeclsOption(b, Source(x)) > 0 <==> Stays(cfg, s, st.needed, x))
    decreases s, 3
  {
    if !cfg.matches(s) {
      SplitFindsMatch(cfg, s, st);
      match s
      case Block(_, components) =>
        assert components[0..] == components && components[..0] == [];
        FromDecls(cfg, s, 0, st, x);
      case If(_, _, t, f) =>
        var branches := [Some(t), f];
        assert branches[1..] == [f] && [f][1..] == [];
        BranchesDecls(cfg, s, branches, st, x);
        var (rs, hs, st1) := SplitBranches(cfg, s, branches, st);
        IfBeforeDecls(s, rs, hs, st1, x);
        assert StaysBranches(cfg, [f], st.needed + Collected(cfg, t), x)
          <==> StaysOption(cfg, f, st.needed + Collected(cfg, t), x);
      case Switch(_, _, cases) =>
        var (rs, hs, st1) := SplitBranches(cfg, s, Bodies(cases), st);
        BodiesPlaced(cases);
        BranchesDecls(cfg, s, Bodies(cases), st, x);
        BodiesStay(cfg, cases, st.needed, x);
        CasesDecls(cases, rs, x);
        SwitchBeforeDecls(s, rs, hs, st1, x);
      case _ =>
    }
  }

  predicate AllPlacedBranches(branches: seq<Option<Stmt>>) {
    branches == [] || (PlacedOption(branches[0]) && AllPlacedBranches(branches[1..]))
  }

  lemma {:induction false} BodiesPlaced(cases: seq<Case>)
    requires PlacedCases(cases)
    ensures AllPlacedBranches(Bodies(cases))
  {
    if cases != [] {
      BodiesPlaced(cases[1..]);
      assert Bodies(cases)[1..] == Bodies(cases[1..]);
    }
  }

  lemma {:induction false} BranchesDecls(cfg: Config, parent: Stmt, branches: seq<Option<Stmt>>, st: State, x: string)
    requires AllPlacedBranches(branches) && forall b <- branches :: b.Some? ==> b.value < parent
    ensures var rs := SplitBranches(cfg, parent, branches, st).0;
            AllPlaced(rs) && (AnyDeclares(rs, x) <==> StaysBranches(cfg, branches, st.needed, x))
    decreases parent, 1, |branches|
  {
    if branches != [] {
      var b := branches[0];
      var (r, _, st1) := SplitBranch(cfg, parent, b, st);
      if b.Some? {
        SplitFindsMatch(cfg, b.value, st);
        SplitCollects(cfg, b.value, st);
        if Contains(cfg, b.value) { BeforeDecls(cfg, b.value, st, x); }
      } else {
        assert st.needed + {} == st.needed;
      }
      BranchesDecls(cfg, parent, branches[1..], st1, x);
      var rs := SplitBranches(cfg, parent, branches[1..], st1).0;
      assert ([r] + rs)[0] == r && ([r] + rs)[1..] == rs;
    }
  }

  lemma {:induction false} FromDecls(cfg: Config, bs: Stmt, i: nat, st: State, x: string)
    requires bs.Block? && i <= |bs.components| && Placed(bs) && ContainsSeq(cfg, bs.components[i..])
    ensures var b := SplitFrom(cfg, bs, i, st).0.before;
            && PlacedOption(b)
            && (DeclsOption(b, Source(x)) > 0 <==>
                  && (DeclsSeq(bs.components[..i], Source(x)) > 0 || InBeforeSeq(cfg, bs.components[i..], x))
                  && x !in st.needed + CollectedFirst(cfg, bs.components[i..]))
    decreases bs, 1, |bs.components| - i
  {
    var c, prefix, tail := bs.components[i], bs.components[..i], bs.components[i + 1..];
    assert bs.components == prefix + ([c] + tail);
    PlacedSeqAppend(prefix, [c] + tail);
    assert ([c] + tail)[0] == c && ([c] + tail)[1..] == tail;
    assert bs.components[i..] == [c] + tail;
    SplitFindsMatch(cfg, c, st);
    if Contains(cfg, c) {
      BeforeDecls(cfg, c, st, x);
      CutDecls(cfg, bs, i, st, x);
    } else {
      assert bs.components[..i + 1] == prefix + [c];
      CountsAppend(prefix, [c], Source(x));
      CountsOne(c, Source(x));
      FromDecls(cfg, bs, i + 1, st, x);
    }
  }

  lemma CutDecls(cfg: Config, bs: Stmt, i: nat, st: State, x: string)
    requires bs.Block? && i < |bs.components| && PlacedSeq(bs.components[..i]) && Contains(cfg, bs.components[i])
    requires var c := bs.components[i];
             var b := Split(cfg, c, st).0.before;
             PlacedOption(b) && (DeclsOption(b, Source(x)) > 0 <==> Stays(cfg, c, st.needed, x))
    ensures var (r, st1) := Split(cfg, bs.components[i], st);
            r.after.Some? &&
            var b := CutBlock(cfg, bs, i, r, st1).0.before;
            && PlacedOption(b)
            && (DeclsOption(b, Source(x)) > 0 <==>
                  && (DeclsSeq(bs.components[..i], Source(x)) > 0 || InBefore(cfg, bs.components[i], x))
                  && x !in st.needed + Collected(cfg, bs.components[i]))
  {
    var c, prefix := bs.components[i], bs.components[..i];
    SplitFindsMatch(cfg, c, st);
    SplitCollects(cfg, c, st);
    var (r, st1) := Split(cfg, c, st);
    FilteredDecls(st1.needed, bs.id, prefix, r.before, x);
    if x !in st1.needed { StaysUnlessNeeded(cfg, c, st.needed, x); }
  }

  lemma FilteredDecls(needed: set<string>, id: nat, prefix: seq<Stmt>, b: Option<Stmt>, x: string)
    requires PlacedSeq(prefix) && PlacedOption(b)
    ensures var filtered := Filter(needed, Block(id, prefix + if b.Some? then [b.value] else []));
            && filtered.Block? && Placed(filtered)
            && Decls(filtered, Source(x)) ==
                 if x in needed then 0 else DeclsSeq(prefix, Source(x)) + DeclsOption(b, Source(x))
  {
    var last := if b.Some? then [b.value] else [];
    if b.Some? {
      CountsOne(b.value, Source(x));
      assert last[1..] == [];
    }
    PlacedSeqAppend(prefix, last);
    CountsAppend(prefix, last, Source(x));
    FilterSeqDecls(needed, prefix + last, x);
  }

  lemma PlacedPair(a: Stmt, b: Stmt)
    requires Placed(a) && Placed(b)
    ensures PlacedSeq([a, b])
  {
    assert [a, b][1..] == [b] && [b][1..] == [];
    assert PlacedSeq([]);
    assert PlacedSeq([b]);
  }

  lemma IfBeforeDecls(s: Stmt, rs: seq<SplitResult>, hs: seq<Name>, st: State, x: string)
    requires s.If? && |rs| == 2 && AllPlaced(rs)
    ensures var b := RebuildIf(s, rs, hs, st).0.before;
            PlacedOption(b) && (DeclsOption(b, Source(x)) > 0 <==> AnyDeclares(rs, x))
  {
    var cond := Generated("cond", st.generated);
    var beforeIf := If(s.id, PathExpression(cond), OrEmptyBlock(rs[0].before), rs[1].before);
    var save := Assign(cond, s.condition);
    CountsOrEmptyBlock(rs[0].before, Source(x));
    assert rs[1..] == [rs[1]] && rs[1..][1..] == [];
    assert AnyDeclares(rs[1..], x) <==> DeclsOption(rs[1].before, Source(x)) > 0;
    assert [save, beforeIf][1..] == [beforeIf] && [beforeIf][1..] == [];
    assert DeclsSeq([save, beforeIf], Source(x)) == DeclsSeq([beforeIf], Source(x)) == Decls(beforeIf, Source(x));
    assert rs[1..][0] == rs[1] && PlacedOption(rs[0].before) && PlacedOption(rs[1].before);
    PlacedPair(save, beforeIf);
  }

  lemma SwitchBeforeDecls(s: Stmt, rs: seq<SplitResult>, hs: seq<Name>, st: State, x: string)
    requires s.Switch? && |rs| == |s.cases| && PlacedCases(SetCases(s.cases, Befores(rs)))
    ensures var b := RebuildSwitch(s, rs, hs, st).0.before;
            PlacedOption(b) && DeclsOption(b, Source(x)) == DeclsCases(SetCases(s.cases, Befores(rs)), Source(x))
  {
    var sel := Generated("selector", st.generated);
    var beforeSw := Switch(s.id, PathExpression(sel), SetCases(s.cases, Befores(rs)));
    var save := Assign(sel, s.selector);
    assert [save, beforeSw][1..] == [beforeSw] && [beforeSw][1..] == [];
    assert DeclsSeq([save, beforeSw], Source(x)) == DeclsSeq([beforeSw], Source(x)) == Decls(beforeSw, Source(x));
    PlacedPair(save, beforeSw);
  }

  lemma {:induction false} CasesDecls(cases: seq<Case>, rs: seq<SplitResult>, x: string)
    requires |rs| == |cases| && AllPlaced(rs)
    ensures var set1 := SetCases(cases, Befores(rs));
            PlacedCases(set1) && (DeclsCases(set1, Source(x)) > 0 <==> AnyDeclares(rs, x))
  {
    if cases != [] {
      CasesDecls(cases[1..], rs[1..], x);
      assert SetCases(cases, Befores(rs))[1..] == SetCases(cases[1..], Befores(rs[1..]));
    }
  }
}
