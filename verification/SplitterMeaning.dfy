/** Execution of statements, and what `before` and `after` of a split do. */
module SplitterMeaning {
  import opened Wrappers
  import opened Splitter

  // ---------------------------------------------------------------- execution

  type Store = map<Name, int>

  datatype Event = RanLeaf(id: nat) | Evaluated(id: nat)

  datatype Run = Run(store: Store, trace: seq<Event>)

  /** Arbitrary meanings of the leaves and of the expressions, which may have side effects. */
  datatype World = World(leaf: (nat, Store) -> Store,
                         value: (nat, Store) -> int,
                         effect: (nat, Store) -> Store)

  function Lookup(s: Store, n: Name): Option<int> {
    if n in s then Some(s[n]) else None
  }

  function ValueOf(w: World, e: Expr, s: Store): int {
    match e
    case Original(id, _) => w.value(id, s)
    case PathExpression(n) => if n in s then s[n] else 0
  }

  function Evaluate(w: World, e: Expr, s: Store): Run {
    match e
    case Original(id, _) => Run(w.effect(id, s), [Evaluated(id)])
    case PathExpression(_) => Run(s, [])
  }

  function Exec(w: World, s: Stmt, store: Store): Run
    decreases s, 1
  {
    match s
    case Leaf(id, _) => Run(w.leaf(id, store), [RanLeaf(id)])
    case Decl(_) => Run(store, [])
    case Assign(n, e) =>
      var r := Evaluate(w, e, store);
      r.(store := r.store[n := ValueOf(w, e, store)])
    case Block(_, components) => ExecSeq(w, components, store)
    case If(_, e, t, f) =>
      var r := Evaluate(w, e, store);
      if ValueOf(w, e, store) != 0 then Then(r, Exec(w, t, r.store))
      else if f.Some? then Then(r, Exec(w, f.value, r.store))
      else r
    case Switch(_, e, cases) =>
      var r := Evaluate(w, e, store);
      Then(r, ExecCases(w, cases, Chosen(Labels(cases), ValueOf(w, e, store)), r.store))
  }

  function Then(first: Run, second: Run): Run {
    Run(second.store, first.trace + second.trace)
  }

  function ExecSeq(w: World, ss: seq<Stmt>, store: Store): Run
    decreases ss, 0
  {
    if ss == [] then Run(store, [])
    else
      var r := Exec(w, ss[0], store);
      Then(r, ExecSeq(w, ss[1..], r.store))
  }

  function Labels(cases: seq<Case>): (r: seq<Label>) {
    seq(|cases|, i requires 0 <= i < |cases| => cases[i].caseLabel)
  }

  /** Where a label first occurs, or behind the end. */
  function IndexOf(labels: seq<Label>, x: Label): (i: nat)
    ensures i <= |labels| && (i < |labels| ==> labels[i] == x)
  {
    if labels == [] || labels[0] == x then 0 else 1 + IndexOf(labels[1..], x)
  }

  /** Section 12.7 of the P4_16 Language Specification: the case with the selector's value, otherwise
      the default case, otherwise none. */
  function Chosen(labels: seq<Label>, v: int): nat {
    if IndexOf(labels, Value(v)) < |labels| then IndexOf(labels, Value(v)) else IndexOf(labels, Default)
  }

  /** Runs the first body at or after case `i`; nothing if `i` is out of range or no body follows. */
  function ExecCases(w: World, cases: seq<Case>, i: nat, store: Store): Run
    decreases cases, 0
  {
    if cases == [] then Run(store, [])
    else if i > 0 then ExecCases(w, cases[1..], i - 1, store)
    else if cases[0].body.Some? then assert cases[0].body.value < cases[0]; Exec(w, cases[0].body.value, store)
    else ExecCases(w, cases[1..], 0, store)
  }

  function ExecOption(w: World, s: Option<Stmt>, store: Store): Run {
    if s.Some? then Exec(w, s.value, store) else Run(store, [])
  }

  // ---------------------------------------------------------------- source programs and fresh names

  predicate IsSource(s: Stmt)
    decreases s, 1
  {
    match s
    case Leaf(_, _) => true
    case Decl(n) => n.Source?
    case Assign(_, _) => false
    case Block(_, components) => IsSourceSeq(components)
    case If(_, e, t, f) => e.Original? && IsSource(t) && (f.Some? ==> IsSource(f.value))
    case Switch(_, e, cases) => e.Original? && IsSourceCases(cases)
  }

  predicate IsSourceSeq(ss: seq<Stmt>)
    decreases ss, 0
  {
    forall s <- ss :: IsSource(s)
  }

  predicate IsSourceCases(cases: seq<Case>)
    decreases cases, 0
  {
    forall i | 0 <= i < |cases| && cases[i].body.Some? ::
      assert cases[i].body.value < cases[i]; IsSource(cases[i].body.value)
  }

  ghost predicate SameSource(s: Store, t: Store) {
    forall x: string :: Lookup(s, Source(x)) == Lookup(t, Source(x))
  }

  /** `s` and `t` agree on the generated names with index in [lo, hi). */
  ghost predicate SameSaved(s: Store, t: Store, lo: nat, hi: nat) {
    forall b: string, k: nat | lo <= k < hi :: Lookup(s, Generated(b, k)) == Lookup(t, Generated(b, k))
  }

  ghost predicate SameGenerated(s: Store, t: Store) {
    forall b: string, k: nat :: Lookup(s, Generated(b, k)) == Lookup(t, Generated(b, k))
  }

  /** Generated names are fresh: no leaf or expression of the program reads or writes one. */
  ghost predicate Oblivious(w: World) {
    && (forall id, s, t | SameSource(s, t) :: SameSource(w.leaf(id, s), w.leaf(id, t)))
    && (forall id, s, t | SameSource(s, t) :: SameSource(w.effect(id, s), w.effect(id, t)))
    && (forall id, s, t | SameSource(s, t) :: w.value(id, s) == w.value(id, t))
    && (forall id, s :: SameGenerated(s, w.leaf(id, s)))
    && (forall id, s :: SameGenerated(s, w.effect(id, s)))
  }

  lemma {:induction false} ExecSource(w: World, s: Stmt, store: Store, other: Store)
    requires Oblivious(w) && IsSource(s) && SameSource(store, other)
    ensures Exec(w, s, store).trace == Exec(w, s, other).trace
    ensures SameSource(Exec(w, s, store).store, Exec(w, s, other).store)
    ensures SameGenerated(store, Exec(w, s, store).store)
    decreases s, 1
  {
    match s
    case Leaf(_, _) =>
    case Decl(_) =>
    case Block(_, components) => ExecSeqSource(w, components, store, other);
    case If(_, e, t, f) =>
      var r, r' := Evaluate(w, e, store), Evaluate(w, e, other);
      ExecSource(w, t, r.store, r'.store);
      if f.Some? { ExecSource(w, f.value, r.store, r'.store); }
    case Switch(_, e, cases) =>
      var r, r' := Evaluate(w, e, store), Evaluate(w, e, other);
      ExecCasesSource(w, cases, Chosen(Labels(cases), ValueOf(w, e, store)), r.store, r'.store);
  }

  lemma {:induction false} ExecSeqSource(w: World, ss: seq<Stmt>, store: Store, other: Store)
    requires Oblivious(w) && IsSourceSeq(ss) && SameSource(store, other)
    ensures ExecSeq(w, ss, store).trace == ExecSeq(w, ss, other).trace
    ensures SameSource(ExecSeq(w, ss, store).store, ExecSeq(w, ss, other).store)
    ensures SameGenerated(store, ExecSeq(w, ss, store).store)
    decreases ss, 0
  {
    if ss != [] {
      ExecSource(w, ss[0], store, other);
      ExecSeqSource(w, ss[1..], Exec(w, ss[0], store).store, Exec(w, ss[0], other).store);
    }
  }

  lemma {:induction false} ExecCasesSource(w: World, cases: seq<Case>, i: nat, store: Store, other: Store)
    requires Oblivious(w) && IsSourceCases(cases) && SameSource(store, other)
    ensures ExecCases(w, cases, i, store).trace == ExecCases(w, cases, i, other).trace
    ensures SameSource(ExecCases(w, cases, i, store).store, ExecCases(w, cases, i, other).store)
    ensures SameGenerated(store, ExecCases(w, cases, i, store).store)
    decreases cases, 0
  {
    if cases != [] {
      if i > 0 {
        ExecCasesSource(w, cases[1..], i - 1, store, other);
      } else if cases[0].body.Some? {
        assert cases[0].body.value < cases[0];
        ExecSource(w, cases[0].body.value, store, other);
      } else {
        ExecCasesSource(w, cases[1..], 0, store, other);
      }
    }
  }

  lemma {:induction false} ExecSeqAppend(w: World, xs: seq<Stmt>, ys: seq<Stmt>, store: Store)
    ensures ExecSeq(w, xs + ys, store) ==
            Then(ExecSeq(w, xs, store), ExecSeq(w, ys, ExecSeq(w, xs, store).store))
  {
    if xs == [] {
      assert xs + ys == ys;
      assert [] + ExecSeq(w, ys, store).trace == ExecSeq(w, ys, store).trace;
    } else {
      var r := Exec(w, xs[0], store);
      assert (xs + ys)[1..] == xs[1..] + ys;
      ExecSeqAppend(w, xs[1..], ys, r.store);
    }
  }

  // ---------------------------------------------------------------- hoisting declarations

  lemma {:induction false} FilterKeepsMeaning(w: World, needed: set<string>, s: Stmt, store: Store)
    ensures Exec(w, Filter(needed, s), store) == Exec(w, s, store)
    decreases s, 1
  {
    match s
    case Leaf(_, _) =>
    case Decl(_) =>
    case Assign(_, _) =>
    case Block(_, components) => FilterSeqKeepsMeaning(w, needed, components, store);
    case If(_, e, t, f) =>
      var r := Evaluate(w, e, store);
      FilterKeepsMeaning(w, needed, t, r.store);
      if f.Some? { FilterKeepsMeaning(w, needed, f.value, r.store); }
    case Switch(_, e, cases) =>
      FilterCasesKeepsLabels(needed, cases);
      FilterCasesKeepsMeaning(w, needed, cases, Chosen(Labels(cases), ValueOf(w, e, store)),
                              Evaluate(w, e, store).store);
  }

  lemma {:induction false} FilterSeqKeepsMeaning(w: World, needed: set<string>, ss: seq<Stmt>, store: Store)
    ensures ExecSeq(w, FilterSeq(needed, ss), store) == ExecSeq(w, ss, store)
    decreases ss, 0
  {
    if ss != [] {
      var r := Exec(w, ss[0], store);
      FilterSeqKeepsMeaning(w, needed, ss[1..], r.store);
      if IsHoisted(needed, ss[0]) {
        assert [] + FilterSeq(needed, ss[1..]) == FilterSeq(needed, ss[1..]);
        assert [] + ExecSeq(w, ss[1..], store).trace == ExecSeq(w, ss[1..], store).trace;
      } else {
        FilterKeepsMeaning(w, needed, ss[0], store);
        assert FilterSeq(needed, ss)[1..] == FilterSeq(needed, ss[1..]);
      }
    }
  }

  lemma {:induction false} FilterCasesKeepsLabels(needed: set<string>, cases: seq<Case>)
    ensures Labels(FilterCases(needed, cases)) == Labels(cases)
  {
    if cases != [] {
      FilterCasesKeepsLabels(needed, cases[1..]);
      assert Labels(FilterCases(needed, cases)) == [cases[0].caseLabel] + Labels(FilterCases(needed, cases[1..]));
      assert Labels(cases) == [cases[0].caseLabel] + Labels(cases[1..]);
    }
  }

  lemma {:induction false} FilterCasesKeepsMeaning(w: World, needed: set<string>, cases: seq<Case>, i: nat, store: Store)
    ensures ExecCases(w, FilterCases(needed, cases), i, store) == ExecCases(w, cases, i, store)
    decreases cases, 0
  {
    if cases != [] {
      assert FilterCases(needed, cases)[1..] == FilterCases(needed, cases[1..]);
      if i > 0 {
        FilterCasesKeepsMeaning(w, needed, cases[1..], i - 1, store);
      } else if cases[0].body.Some? {
        assert cases[0].body.value < cases[0];
        FilterKeepsMeaning(w, needed, cases[0].body.value, store);
      } else {
        FilterCasesKeepsMeaning(w, needed, cases[1..], 0, store);
      }
    }
  }

  // ---------------------------------------------------------------- where a statement is cut

  /** Some statement inside `s` (or `s` itself) satisfies the predicate. */
  predicate Contains(cfg: Config, s: Stmt)
    decreases s, 1
  {
    !s.Decl? &&
    (cfg.matches(s) ||
     match s
     case Block(_, components) => ContainsSeq(cfg, components)
     case If(_, _, t, f) => Contains(cfg, t) || (f.Some? && Contains(cfg, f.value))
     case Switch(_, _, cases) => ContainsCases(cfg, cases)
     case _ => false)
  }

  predicate ContainsSeq(cfg: Config, ss: seq<Stmt>)
    decreases ss, 0
  {
    ss != [] && (Contains(cfg, ss[0]) || ContainsSeq(cfg, ss[1..]))
  }

  predicate ContainsCases(cfg: Config, cases: seq<Case>)
    decreases cases, 0
  {
    cases != [] &&
    ((cases[0].body.Some? && (assert cases[0].body.value < cases[0]; Contains(cfg, cases[0].body.value))) ||
     ContainsCases(cfg, cases[1..]))
  }

  /** A run stopped at the cut; `rest` is what remains, in original statements. */
  datatype CutRun = CutRun(store: Store, trace: seq<Event>, rest: seq<Stmt>)

  /** The reference meaning of a split: run the original statement, and stop at a match, or at the
      end of the first component of a block that contains one. */
  function Cut(w: World, cfg: Config, s: Stmt, store: Store): CutRun
    decreases s, 1
  {
    if !Contains(cfg, s) then Whole(Exec(w, s, store))
    else if cfg.matches(s) then CutRun(store, [], [s])
    else
      match s
      case Block(_, components) => CutSeq(w, cfg, components, store)
      case If(_, e, t, f) =>
        var r := Evaluate(w, e, store);
        if ValueOf(w, e, store) != 0 then ThenCut(r, Cut(w, cfg, t, r.store))
        else if f.Some? then ThenCut(r, Cut(w, cfg, f.value, r.store))
        else Whole(r)
      case Switch(_, e, cases) =>
        var r := Evaluate(w, e, store);
        ThenCut(r, CutCases(w, cfg, cases, Chosen(Labels(cases), ValueOf(w, e, store)), r.store))
      case _ => assert false; CutRun(store, [], [])
  }

  function Whole(r: Run): CutRun {
    CutRun(r.store, r.trace, [])
  }

  function ThenCut(first: Run, second: CutRun): CutRun {
    second.(trace := first.trace + second.trace)
  }

  function CutSeq(w: World, cfg: Config, ss: seq<Stmt>, store: Store): CutRun
    decreases ss, 0
  {
    if ss == [] then CutRun(store, [], [])
    else if Contains(cfg, ss[0]) then
      var c := Cut(w, cfg, ss[0], store);
      c.(rest := c.rest + ss[1..])
    else
      var r := Exec(w, ss[0], store);
      ThenCut(r, CutSeq(w, cfg, ss[1..], r.store))
  }

  function CutCases(w: World, cfg: Config, cases: seq<Case>, i: nat, store: Store): CutRun
    decreases cases, 0
  {
    if cases == [] then CutRun(store, [], [])
    else if i > 0 then CutCases(w, cfg, cases[1..], i - 1, store)
    else if cases[0].body.Some? then
      assert cases[0].body.value < cases[0];
      Cut(w, cfg, cases[0].body.value, store)
    else CutCases(w, cfg, cases[1..], 0, store)
  }

  function CutOption(w: World, cfg: Config, s: Option<Stmt>, store: Store): CutRun {
    if s.Some? then Cut(w, cfg, s.value, store) else CutRun(store, [], [])
  }

  // ---------------------------------------------------------------- when a split happens

  /** `after` is null exactly if nothing matches, and then nothing has changed. */
  lemma {:induction false} SplitFindsMatch(cfg: Config, s: Stmt, st: State)
    ensures Split(cfg, s, st).0.after.Some? <==> Contains(cfg, s)
    ensures !Contains(cfg, s) ==> Split(cfg, s, st).1 == st
    ensures st.generated <= Split(cfg, s, st).1.generated
    decreases s, 2
  {
    match s
    case Block(_, components) =>
      assert components[0..] == components;
      SplitFromFindsMatch(cfg, s, 0, st);
    case If(_, _, t, f) =>
      SplitBranchesFindsMatch(cfg, s, [Some(t), f], st);
      var (rs, _, _) := SplitBranches(cfg, s, [Some(t), f], st);
      assert AnySplit(rs) <==> rs[0].after.Some? || rs[1].after.Some?;
    case Switch(_, _, cases) =>
      SplitBranchesFindsMatch(cfg, s, Bodies(cases), st);
      ContainsBodies(cfg, cases);
    case _ =>
  }

  lemma {:induction false} SplitFromFindsMatch(cfg: Config, bs: Stmt, i: nat, st: State)
    requires bs.Block? && i <= |bs.components|
    ensures SplitFrom(cfg, bs, i, st).0.after.Some? <==> ContainsSeq(cfg, bs.components[i..])
    ensures !ContainsSeq(cfg, bs.components[i..]) ==> SplitFrom(cfg, bs, i, st).1 == st
    ensures st.generated <= SplitFrom(cfg, bs, i, st).1.generated
    decreases bs, 1, |bs.components| - i
  {
    if i < |bs.components| {
      SplitFindsMatch(cfg, bs.components[i], st);
      assert bs.components[i..][1..] == bs.components[i + 1..];
      SplitFromFindsMatch(cfg, bs, i + 1, st);
    }
  }

  lemma {:induction false} SplitBranchesFindsMatch(cfg: Config, parent: Stmt, branches: seq<Option<Stmt>>, st: State)
    requires forall b <- branches :: b.Some? ==> b.value < parent
    ensures var (rs, _, st1) := SplitBranches(cfg, parent, branches, st);
            && (forall i | 0 <= i < |branches| ::
                  rs[i].after.Some? <==> branches[i].Some? && Contains(cfg, branches[i].value))
            && (!AnySplit(rs) ==> st1 == st)
            && st.generated <= st1.generated
    decreases parent, 1, |branches|
  {
    if branches != [] {
      var b := branches[0];
      if b.Some? { SplitFindsMatch(cfg, b.value, st); }
      var (r, _, st1) := SplitBranch(cfg, parent, b, st);
      SplitBranchesFindsMatch(cfg, parent, branches[1..], st1);
      var (rs, _, _) := SplitBranches(cfg, parent, branches[1..], st1);
      AnySplitCons(r, rs);
      forall i | 0 <= i < |branches|
        ensures ([r] + rs)[i].after.Some? <==> branches[i].Some? && Contains(cfg, branches[i].value)
      {
        if i > 0 { assert branches[1..][i - 1] == branches[i]; }
      }
    }
  }

  lemma {:induction false} ContainsBodies(cfg: Config, cases: seq<Case>)
    ensures ContainsCases(cfg, cases) <==>
            exists i :: 0 <= i < |cases| && Bodies(cases)[i].Some? && Contains(cfg, Bodies(cases)[i].value)
  {
    if cases != [] {
      ContainsBodies(cfg, cases[1..]);
      assert forall i | 0 < i < |cases| :: Bodies(cases)[i] == Bodies(cases[1..])[i - 1];
      assert Bodies(cases)[0] == cases[0].body;
      if i :| 0 <= i < |cases| && Bodies(cases)[i].Some? && Contains(cfg, Bodies(cases)[i].value) {
        if i > 0 { assert Bodies(cases)[i] == Bodies(cases[1..])[i - 1]; }
      }
      if i :| 0 <= i < |cases| - 1 && Bodies(cases[1..])[i].Some? && Contains(cfg, Bodies(cases[1..])[i].value) {
        assert Bodies(cases)[i + 1] == Bodies(cases[1..])[i];
      }
    }
  }
}
