/** Main results about the splitter: running `before` and then `after` is running the original. */
module SplitterPreserves {
  import opened Wrappers
  import opened Splitter
  import opened SplitterMeaning

  /** Outside [lo, hi) the generated names have the same values. */
  ghost predicate SameSavedOutside(s: Store, t: Store, lo: nat, hi: nat) {
    forall b: string, k: nat | !(lo <= k < hi) :: Lookup(s, Generated(b, k)) == Lookup(t, Generated(b, k))
  }

  /** The run of a `before` from `start` did what the cut run `c` did, saving only names in [lo, hi). */
  ghost predicate RunsToCut(b: Run, c: CutRun, start: Store, lo: nat, hi: nat) {
    && b.trace == c.trace
    && SameSource(b.store, c.store)
    && SameSavedOutside(b.store, start, lo, hi)
  }

  /** The run of an `after` from `start` did what the run `e` did, and saved nothing. */
  ghost predicate RunsRest(a: Run, e: Run, start: Store) {
    && a.trace == e.trace
    && SameSource(a.store, e.store)
    && SameGenerated(a.store, start)
  }

  /**
   Correctness of one split, for every insertion point in time: `before`, started in `start`, runs
   exactly to the cut of `s`; `after`, started in any store `later` that still holds what `before`
   saved, runs exactly the rest.
   */
  lemma {:induction false} SplitCorrect(cfg: Config, w: World, s: Stmt, st: State,
                                        orig: Store, start: Store, later: Store)
    requires Oblivious(w) && IsSource(s) && Contains(cfg, s) && SameSource(orig, start)
    ensures var (r, st1) := Split(cfg, s, st);
            var c := Cut(w, cfg, s, orig);
            var b := ExecOption(w, r.before, start);
            && RunsToCut(b, c, start, st.generated, st1.generated)
            && (SameSaved(b.store, later, st.generated, st1.generated) ==>
                  RunsRest(ExecOption(w, r.after, later), ExecSeq(w, c.rest, later), later))
    decreases s, 3
  {
    SplitFindsMatch(cfg, s, st);
    if cfg.matches(s) {
      var e := Exec(w, s, later);
      assert e.trace + [] == e.trace;
      ExecSource(w, s, later, later);
    } else {
      match s
      case Block(_, components) =>
        assert components[0..] == components && components[..0] == [];
        assert ExecSeq(w, components[..0], orig).trace + CutSeq(w, cfg, components, orig).trace
               == CutSeq(w, cfg, components, orig).trace;
        SplitFromCorrect(cfg, w, s, 0, st, orig, start, later);
      case If(_, _, _, _) => SplitIfCorrect(cfg, w, s, st, orig, start, later);

      case Switch(_, _, _) => SplitSwitchCorrect(cfg, w, s, st, orig, start, later);
      case _ =>
    }
  }

  /** What the two halves of a block cut at component `i` run. */
  lemma CutBlockRuns(cfg: Config, w: World, bs: Stmt, i: nat, r: SplitResult, st: State, start: Store, later: Store)
    requires bs.Block? && i < |bs.components| && r.after.Some?
    ensures var (res, st1) := CutBlock(cfg, bs, i, r, st);
            var p := ExecSeq(w, bs.components[..i], start);
            var a := Exec(w, r.after.value, later);
            && st1.generated == st.generated
            && Exec(w, res.before.value, start) == Then(p, ExecOption(w, r.before, p.store))
            && Exec(w, res.after.value, later) == Then(a, ExecSeq(w, bs.components[i + 1..], a.store))
  {
    var prefix, tail := bs.components[..i], bs.components[i + 1..];
    PrefixThenOption(w, prefix, r.before, start);
    FilterSeqKeepsMeaning(w, st.needed, prefix + (if r.before.Some? then [r.before.value] else []), start);
    assert ([r.after.value] + tail)[1..] == tail;
  }

  /** The cut component of a block, its prefix run already. */
  lemma {:induction false} CutBlockCorrect(cfg: Config, w: World, bs: Stmt, i: nat, st: State,
                                           p: Run, q: Run, start: Store, later: Store)
    requires bs.Block? && i < |bs.components|
    requires Oblivious(w) && IsSource(bs) && Contains(cfg, bs.components[i])
    requires q == ExecSeq(w, bs.components[..i], start)
    requires p.trace == q.trace && SameSource(p.store, q.store) && SameGenerated(start, q.store)
    ensures var (r, st1) := SplitFrom(cfg, bs, i, st);
            var c := Cut(w, cfg, bs.components[i], p.store);
            var d := CutRun(c.store, p.trace + c.trace, c.rest + bs.components[i + 1..]);
            var b := ExecOption(w, r.before, start);
            && RunsToCut(b, d, start, st.generated, st1.generated)
            && (SameSaved(b.store, later, st.generated, st1.generated) ==>
                  RunsRest(ExecOption(w, r.after, later), ExecSeq(w, d.rest, later), later))
    decreases bs, 1, 0
  {
    var x, tail := bs.components[i], bs.components[i + 1..];
    SplitFindsMatch(cfg, x, st);
    var (r, st1) := Split(cfg, x, st);
    CutBlockRuns(cfg, w, bs, i, r, st1, start, later);
    SplitCorrect(cfg, w, x, st, p.store, q.store, later);
    var b := ExecOption(w, r.before, q.store);
    if SameSaved(b.store, later, st.generated, st1.generated) {
      var rest := Cut(w, cfg, x, p.store).rest;
      var a, e := Exec(w, r.after.value, later), ExecSeq(w, rest, later);
      ExecSeqAppend(w, rest, tail, later);
      ExecSeqSource(w, tail, a.store, e.store);
    }
  }

  /** The block loop at component `i`, when no earlier component contains a match. */
  lemma {:induction false} SplitFromCorrect(cfg: Config, w: World, bs: Stmt, i: nat, st: State,
                                            orig: Store, start: Store, later: Store)
    requires bs.Block? && i <= |bs.components|
    requires Oblivious(w) && IsSource(bs) && SameSource(orig, start)
    requires ContainsSeq(cfg, bs.components[i..])
    ensures var (r, st1) := SplitFrom(cfg, bs, i, st);
            var p := ExecSeq(w, bs.components[..i], orig);
            var c := ThenCut(p, CutSeq(w, cfg, bs.components[i..], p.store));
            var b := ExecOption(w, r.before, start);
            && RunsToCut(b, c, start, st.generated, st1.generated)
            && (SameSaved(b.store, later, st.generated, st1.generated) ==>
                  RunsRest(ExecOption(w, r.after, later), ExecSeq(w, c.rest, later), later))
    decreases bs, 1, |bs.components| - i
  {
    var x, prefix := bs.components[i], bs.components[..i];
    CutPrefixNext(cfg, w, bs.components, i, orig);
    if Contains(cfg, x) {
      ExecSeqSource(w, prefix, orig, start);
      ExecSeqSource(w, prefix, start, start);
      CutBlockCorrect(cfg, w, bs, i, st, ExecSeq(w, prefix, orig), ExecSeq(w, prefix, start), start, later);
    } else {
      SplitFindsMatch(cfg, x, st);
      SplitFromCorrect(cfg, w, bs, i + 1, st, orig, start, later);
    }
  }

  /** What becomes of the cut run of a sequence at its `i`-th statement. */
  lemma CutPrefixNext(cfg: Config, w: World, ss: seq<Stmt>, i: nat, store: Store)
    requires i < |ss|
    ensures var p := ExecSeq(w, ss[..i], store);
            var whole := ThenCut(p, CutSeq(w, cfg, ss[i..], p.store));
            if Contains(cfg, ss[i]) then
              var c := Cut(w, cfg, ss[i], p.store);
              whole == CutRun(c.store, p.trace + c.trace, c.rest + ss[i + 1..])
            else
              var q := ExecSeq(w, ss[..i + 1], store);
              && whole == ThenCut(q, CutSeq(w, cfg, ss[i + 1..], q.store))
              && (ContainsSeq(cfg, ss[i..]) <==> ContainsSeq(cfg, ss[i + 1..]))
  {
    assert ss[i..][1..] == ss[i + 1..] && ss[i..][0] == ss[i];
    var p := ExecSeq(w, ss[..i], store);
    if !Contains(cfg, ss[i]) {
      assert ss[..i + 1] == ss[..i] + [ss[i]];
      ExecSeqAppend(w, ss[..i], [ss[i]], store);
      var q := Exec(w, ss[i], p.store);
      assert ExecSeq(w, [ss[i]], p.store) == q by { assert q.trace + [] == q.trace; }
      var d := CutSeq(w, cfg, ss[i + 1..], q.store);
      assert p.trace + (q.trace + d.trace) == p.trace + q.trace + d.trace;
    }
  }

  lemma PrefixThenOption(w: World, prefix: seq<Stmt>, s: Option<Stmt>, store: Store)
    ensures ExecSeq(w, prefix + (if s.Some? then [s.value] else []), store)
            == Then(ExecSeq(w, prefix, store), ExecOption(w, s, ExecSeq(w, prefix, store).store))
  {
    var p := ExecSeq(w, prefix, store);
    if s.Some? {
      ExecSeqAppend(w, prefix, [s.value], store);
      var q := Exec(w, s.value, p.store);
      assert q.trace + [] == q.trace;
    } else {
      assert prefix + [] == prefix && p.trace + [] == p.trace;
    }
  }

  /** One branch; a branch without a match is kept whole in `before` and leaves nothing for `after`. */
  lemma {:induction false} SplitBranchCorrect(cfg: Config, w: World, parent: Stmt, branch: Option<Stmt>, st: State,
                                              orig: Store, start: Store, later: Store)
    requires branch.Some? ==> branch.value < parent && IsSource(branch.value)
    requires Oblivious(w) && SameSource(orig, start)
    ensures var (r, _, st1) := SplitBranch(cfg, parent, branch, st);
            var c := CutOption(w, cfg, branch, orig);
            var b := ExecOption(w, r.before, start);
            && st.generated <= st1.generated
            && RunsToCut(b, c, start, st.generated, st1.generated)
            && (SameSaved(b.store, later, st.generated, st1.generated) ==>
                  RunsRest(ExecOption(w, r.after, later), ExecSeq(w, c.rest, later), later))
    decreases parent, 0
  {
    if branch.Some? {
      SplitFindsMatch(cfg, branch.value, st);
      if Contains(cfg, branch.value) {
        SplitCorrect(cfg, w, branch.value, st, orig, start, later);
      } else {
        ExecSource(w, branch.value, orig, start);
        ExecSource(w, branch.value, start, start);
      }
    }
  }

  lemma ExecEmptyBlock(w: World, s: Option<Stmt>, store: Store)
    ensures Exec(w, OrEmptyBlock(s), store) == ExecOption(w, s, store)
  {
  }

  /** Running the saved assignment and then a statement. */
  lemma ExecSaved(w: World, n: Name, e: Expr, s: Stmt, store: Store)
    ensures var r := Evaluate(w, e, store);
            Exec(w, NewBlock([Assign(n, e), s]), store) == Then(r, Exec(w, s, r.store[n := ValueOf(w, e, store)]))
  {
    var save := Assign(n, e);
    var r := Exec(w, save, store);
    var q := Exec(w, s, r.store);
    assert [save, s][1..] == [s] && [s][1..] == [];
    assert q.trace + [] == q.trace;
    assert ExecSeq(w, [s], r.store) == q;
  }

  /** What the rebuilt halves of an `if` run, whatever the branch results are. */
  lemma RebuiltIfRuns(w: World, s: Stmt, rs: seq<SplitResult>, hs: seq<Name>, st: State, start: Store, later: Store)
    requires s.If? && |rs| == 2
    ensures var res := RebuildIf(s, rs, hs, st).0;
            var v := ValueOf(w, s.condition, start);
            var cond := Generated("cond", st.generated);
            var r := Evaluate(w, s.condition, start);
            && Exec(w, res.before.value, start) ==
                 Then(r, ExecOption(w, if v != 0 then rs[0].before else rs[1].before, r.store[cond := v]))
            && (Lookup(later, cond) == Some(v) ==>
                  Exec(w, res.after.value, later) == ExecOption(w, if v != 0 then rs[0].after else rs[1].after, later))
  {
    var v := ValueOf(w, s.condition, start);
    var cond := Generated("cond", st.generated);
    var saved := Evaluate(w, s.condition, start).store[cond := v];
    var beforeIf := If(s.id, PathExpression(cond), OrEmptyBlock(rs[0].before), rs[1].before);
    ExecSaved(w, cond, s.condition, beforeIf, start);
    ExecEmptyBlock(w, rs[0].before, saved);
    ExecEmptyBlock(w, rs[0].after, later);
    var b := ExecOption(w, if v != 0 then rs[0].before else rs[1].before, saved);
    var a := ExecOption(w, if v != 0 then rs[0].after else rs[1].after, later);
    assert [] + b.trace == b.trace && [] + a.trace == a.trace;
  }

  lemma SplitIfBranches(cfg: Config, s: Stmt, st: State)
    requires s.If? && !cfg.matches(s) && Contains(cfg, s)
    ensures var (b0, h0, st1) := SplitBranch(cfg, s, Some(s.ifTrue), st);
            var (b1, h1, st2) := SplitBranch(cfg, s, s.ifFalse, st1);
            Split(cfg, s, st) == RebuildIf(s, [b0, b1], h0 + h1, st2)
  {
    var branches := [Some(s.ifTrue), s.ifFalse];
    assert branches[1..] == [s.ifFalse] && [s.ifFalse][1..] == [];
    var (b0, h0, st1) := SplitBranch(cfg, s, branches[0], st);
    var (b1, h1, st2) := SplitBranch(cfg, s, s.ifFalse, st1);
    assert SplitBranches(cfg, s, [s.ifFalse], st1) == ([b1], h1, st2) by {
      assert [b1] + [] == [b1] && h1 + [] == h1;
    }
    assert SplitBranches(cfg, s, branches, st) == ([b0, b1], h0 + h1, st2) by {
      assert [b0] + [b1] == [b0, b1];
    }
    SplitFindsMatch(cfg, s, st);
  }

  lemma {:induction false} SplitIfCorrect(cfg: Config, w: World, s: Stmt, st: State,
                                          orig: Store, start: Store, later: Store)
    requires s.If? && !cfg.matches(s)
    requires Oblivious(w) && IsSource(s) && Contains(cfg, s) && SameSource(orig, start)
    ensures var (r, st1) := Split(cfg, s, st);
            var c := Cut(w, cfg, s, orig);
            var b := ExecOption(w, r.before, start);
            && RunsToCut(b, c, start, st.generated, st1.generated)
            && (SameSaved(b.store, later, st.generated, st1.generated) ==>
                  RunsRest(ExecOption(w, r.after, later), ExecSeq(w, c.rest, later), later))
    decreases s, 2
  {
    var (b0, h0, st1) := SplitBranch(cfg, s, Some(s.ifTrue), st);
    var (b1, h1, st2) := SplitBranch(cfg, s, s.ifFalse, st1);
    SplitIfBranches(cfg, s, st);
    RebuiltIfRuns(w, s, [b0, b1], h0 + h1, st2, start, later);
    CutIf(w, cfg, s, orig);
    EvaluatesAlike(w, s.condition, orig, start);
    var v := ValueOf(w, s.condition, start);
    var r, r' := Evaluate(w, s.condition, orig), Evaluate(w, s.condition, start);
    var saved := Keep(r'.store, "cond", st2.generated, v);
    SplitBranchCorrect(cfg, w, s, Some(s.ifTrue), st, r.store, saved, later);
    SplitBranchCorrect(cfg, w, s, s.ifFalse, st1, r.store, saved, later);
    if v != 0 {
      var b, c := ExecOption(w, b0.before, saved), CutOption(w, cfg, Some(s.ifTrue), r.store);
      SaveThenCut(b, c, r, r', "cond", st2.generated, v, start, later, st.generated, st1.generated, st.generated);
    } else {
      var b, c := ExecOption(w, b1.before, saved), CutOption(w, cfg, s.ifFalse, r.store);
      SaveThenCut(b, c, r, r', "cond", st2.generated, v, start, later, st1.generated, st2.generated, st.generated);
    }
  }

  /** The store with the value of a condition or selector saved. */
  function Keep(s: Store, base: string, k: nat, v: int): Store {
    s[Generated(base, k) := v]
  }

  lemma EvaluatesAlike(w: World, e: Expr, orig: Store, start: Store)
    requires Oblivious(w) && e.Original? && SameSource(orig, start)
    ensures ValueOf(w, e, orig) == ValueOf(w, e, start)
    ensures var r, r' := Evaluate(w, e, orig), Evaluate(w, e, start);
            && r.trace == r'.trace && SameGenerated(start, r'.store)
            && forall b: string, k: nat, v: int :: SameSource(r.store, Keep(r'.store, b, k, v))
  {
  }

  /** A value is saved under a new name first, and then something runs to its cut. */
  lemma SaveThenCut(b: Run, c: CutRun, r: Run, r': Run, base: string, k: nat, v: int, start: Store, later: Store,
                    lo: nat, hi: nat, from: nat)
    requires RunsToCut(b, c, Keep(r'.store, base, k, v), lo, hi)
    requires r.trace == r'.trace && SameGenerated(start, r'.store) && from <= lo <= hi <= k
    ensures RunsToCut(Then(r', b), ThenCut(r, c), start, from, k + 1)
    ensures SameSaved(b.store, later, from, k + 1) ==>
              SameSaved(b.store, later, lo, hi) && Lookup(later, Generated(base, k)) == Some(v)
  {
    assert Lookup(b.store, Generated(base, k)) == Lookup(Keep(r'.store, base, k, v), Generated(base, k)) == Some(v);
  }

  lemma CutIf(w: World, cfg: Config, s: Stmt, store: Store)
    requires s.If? && !cfg.matches(s) && Contains(cfg, s)
    ensures var r := Evaluate(w, s.condition, store);
            var taken := if ValueOf(w, s.condition, store) != 0 then Some(s.ifTrue) else s.ifFalse;
            Cut(w, cfg, s, store) == ThenCut(r, CutOption(w, cfg, taken, r.store))
  {
    var r := Evaluate(w, s.condition, store);
    assert r.trace + [] == r.trace;
  }

  /** The cases of a switch, from the chosen case `i` on. */
  lemma {:induction false} SplitCasesCorrect(cfg: Config, w: World, parent: Stmt, cases: seq<Case>, i: nat, st: State,
                                             orig: Store, start: Store, later: Store)
    requires forall b <- Bodies(cases) :: b.Some? ==> b.value < parent
    requires Oblivious(w) && IsSourceCases(cases) && SameSource(orig, start)
    ensures var (rs, _, st1) := SplitBranches(cfg, parent, Bodies(cases), st);
            var c := CutCases(w, cfg, cases, i, orig);
            var b := ExecCases(w, SetCases(cases, Befores(rs)), i, start);
            && st.generated <= st1.generated
            && RunsToCut(b, c, start, st.generated, st1.generated)
            && (SameSaved(b.store, later, st.generated, st1.generated) ==>
                  RunsRest(ExecCases(w, SetCases(cases, Afters(rs)), i, later), ExecSeq(w, c.rest, later), later))
    decreases parent, 1, |cases|
  {
    if cases != [] {
      var tail := cases[1..];
      assert Bodies(cases)[0] == cases[0].body && Bodies(cases)[1..] == Bodies(tail);
      var (r, _, st1) := SplitBranch(cfg, parent, cases[0].body, st);
      var (rs, _, st2) := SplitBranches(cfg, parent, Bodies(tail), st1);
      SplitBranchCorrect(cfg, w, parent, cases[0].body, st, orig, start, later);
      var next := if i > 0 then i - 1 else 0;
      SplitCasesCorrect(cfg, w, parent, tail, next, st1, orig, start, later);
      CasesFromFirst(cfg, w, cases, r, rs, i, orig, start, later, st.generated, st1.generated, st2.generated);
    }
  }

  /** The halves of all cases, given those of the first and of the others. */
  lemma CasesFromFirst(cfg: Config, w: World, cases: seq<Case>, r: SplitResult, rs: seq<SplitResult>, i: nat,
                       orig: Store, start: Store, later: Store, lo: nat, mid: nat, hi: nat)
    requires cases != [] && |rs| == |cases| - 1 && lo <= mid <= hi
    requires cases[0].body.None? ==> r.before.None? && r.after.None?
    requires var b, c := ExecOption(w, r.before, start), CutOption(w, cfg, cases[0].body, orig);
             && RunsToCut(b, c, start, lo, mid)
             && (SameSaved(b.store, later, lo, mid) ==>
                   RunsRest(ExecOption(w, r.after, later), ExecSeq(w, c.rest, later), later))
    requires var tail, next := cases[1..], if i > 0 then i - 1 else 0;
             var b, c := ExecCases(w, SetCases(tail, Befores(rs)), next, start), CutCases(w, cfg, tail, next, orig);
             && RunsToCut(b, c, start, mid, hi)
             && (SameSaved(b.store, later, mid, hi) ==>
                   RunsRest(ExecCases(w, SetCases(tail, Afters(rs)), next, later), ExecSeq(w, c.rest, later), later))
    ensures var b, c := ExecCases(w, SetCases(cases, Befores([r] + rs)), i, start), CutCases(w, cfg, cases, i, orig);
            && RunsToCut(b, c, start, lo, hi)
            && (SameSaved(b.store, later, lo, hi) ==>
                  RunsRest(ExecCases(w, SetCases(cases, Afters([r] + rs)), i, later), ExecSeq(w, c.rest, later), later))
  {
    BodiesAfterFirst(r, rs);
    FirstCaseRuns(w, cases, Befores([r] + rs), i, start);
    FirstCaseRuns(w, cases, Afters([r] + rs), i, later);
    if i == 0 && cases[0].body.Some? {
      Widens(ExecOption(w, r.before, start), CutOption(w, cfg, cases[0].body, orig), start, later, lo, mid, lo, hi);
    } else {
      var next := if i > 0 then i - 1 else 0;
      Widens(ExecCases(w, SetCases(cases[1..], Befores(rs)), next, start), CutCases(w, cfg, cases[1..], next, orig),
             start, later, mid, hi, lo, hi);
    }
  }

  lemma Widens(b: Run, c: CutRun, start: Store, later: Store, lo: nat, hi: nat, from: nat, to: nat)
    requires RunsToCut(b, c, start, lo, hi) && from <= lo <= hi <= to
    ensures RunsToCut(b, c, start, from, to)
    ensures SameSaved(b.store, later, from, to) ==> SameSaved(b.store, later, lo, hi)
  {
  }

  lemma BodiesAfterFirst(r: SplitResult, rs: seq<SplitResult>)
    ensures Befores([r] + rs)[1..] == Befores(rs) && Afters([r] + rs)[1..] == Afters(rs)
    ensures Befores([r] + rs)[0] == r.before && Afters([r] + rs)[0] == r.after
  {
  }

  lemma FirstCaseRuns(w: World, cases: seq<Case>, bodies: seq<Option<Stmt>>, i: nat, store: Store)
    requires |bodies| == |cases| && cases != [] && (cases[0].body.None? ==> bodies[0].None?)
    ensures ExecCases(w, SetCases(cases, bodies), i, store) ==
            if i == 0 && cases[0].body.Some? then ExecOption(w, bodies[0], store)
            else ExecCases(w, SetCases(cases[1..], bodies[1..]), if i > 0 then i - 1 else 0, store)
  {
    assert SetCases(cases, bodies)[1..] == SetCases(cases[1..], bodies[1..]);
    ExecEmptyBlock(w, bodies[0], store);
  }

  lemma SetCasesKeepsLabels(cases: seq<Case>, bodies: seq<Option<Stmt>>)
    requires |bodies| == |cases|
    ensures Labels(SetCases(cases, bodies)) == Labels(cases)
  {
  }

  /** What the rebuilt halves of a `switch` run, whatever the branch results are. */
  lemma RebuiltSwitchRuns(w: World, s: Stmt, rs: seq<SplitResult>, hs: seq<Name>, st: State, start: Store, later: Store)
    requires s.Switch? && |rs| == |s.cases|
    ensures var res := RebuildSwitch(s, rs, hs, st).0;
            var v := ValueOf(w, s.selector, start);
            var i := Chosen(Labels(s.cases), v);
            var sel := Generated("selector", st.generated);
            var r := Evaluate(w, s.selector, start);
            && Exec(w, res.before.value, start) ==
                 Then(r, ExecCases(w, SetCases(s.cases, Befores(rs)), i, r.store[sel := v]))
            && (Lookup(later, sel) == Some(v) ==>
                  Exec(w, res.after.value, later) == ExecCases(w, SetCases(s.cases, Afters(rs)), i, later))
  {
    var v := ValueOf(w, s.selector, start);
    var sel := Generated("selector", st.generated);
    var i := Chosen(Labels(s.cases), v);
    SetCasesKeepsLabels(s.cases, Befores(rs));
    SetCasesKeepsLabels(s.cases, Afters(rs));
    var beforeSw := Switch(s.id, PathExpression(sel), SetCases(s.cases, Befores(rs)));
    ExecSaved(w, sel, s.selector, beforeSw, start);
    var b := ExecCases(w, SetCases(s.cases, Befores(rs)), i, Evaluate(w, s.selector, start).store[sel := v]);
    var a := ExecCases(w, SetCases(s.cases, Afters(rs)), i, later);
    assert [] + b.trace == b.trace && [] + a.trace == a.trace;
  }

  lemma SplitSwitchBranches(cfg: Config, s: Stmt, st: State)
    requires s.Switch? && !cfg.matches(s) && Contains(cfg, s)
    ensures var (rs, hs, st1) := SplitBranches(cfg, s, Bodies(s.cases), st);
            Split(cfg, s, st) == RebuildSwitch(s, rs, hs, st1)
  {
    SplitFindsMatch(cfg, s, st);
  }

  lemma {:induction false} SplitSwitchCorrect(cfg: Config, w: World, s: Stmt, st: State,
                                              orig: Store, start: Store, later: Store)
    requires s.Switch? && !cfg.matches(s)
    requires Oblivious(w) && IsSource(s) && Contains(cfg, s) && SameSource(orig, start)
    ensures var (r, st1) := Split(cfg, s, st);
            var c := Cut(w, cfg, s, orig);
            var b := ExecOption(w, r.before, start);
            && RunsToCut(b, c, start, st.generated, st1.generated)
            && (SameSaved(b.store, later, st.generated, st1.generated) ==>
                  RunsRest(ExecOption(w, r.after, later), ExecSeq(w, c.rest, later), later))
    decreases s, 2
  {
    var (rs, hs, st1) := SplitBranches(cfg, s, Bodies(s.cases), st);
    SplitSwitchBranches(cfg, s, st);
    RebuiltSwitchRuns(w, s, rs, hs, st1, start, later);
    EvaluatesAlike(w, s.selector, orig, start);
    var v := ValueOf(w, s.selector, start);
    var r, r' := Evaluate(w, s.selector, orig), Evaluate(w, s.selector, start);
    var saved := Keep(r'.store, "selector", st1.generated, v);
    var i := Chosen(Labels(s.cases), v);
    SplitCasesCorrect(cfg, w, s, s.cases, i, st, r.store, saved, later);
    var b, c := ExecCases(w, SetCases(s.cases, Befores(rs)), i, saved), CutCases(w, cfg, s.cases, i, r.store);
    SaveThenCut(b, c, r, r', "selector", st1.generated, v, start, later, st.generated, st1.generated, st.generated);
  }

  // ---------------------------------------------------------------- main theorems

  /** The cut loses and repeats nothing: the part up to the cut, then the rest, is the statement. */
  lemma {:induction false} CutThenRest(cfg: Config, w: World, s: Stmt, store: Store)
    ensures var c := Cut(w, cfg, s, store);
            Then(Run(c.store, c.trace), ExecSeq(w, c.rest, c.store)) == Exec(w, s, store)
    decreases s, 1
  {
    var c := Cut(w, cfg, s, store);
    assert c.trace + [] == c.trace;
    if Contains(cfg, s) {
      if cfg.matches(s) {
        var e := Exec(w, s, store);
        assert [s][1..] == [] && e.trace + [] == e.trace && [] + e.trace == e.trace;
      } else {
        match s
        case Block(_, components) => CutSeqThenRest(cfg, w, components, store);
        case If(_, e, t, f) =>
          var r := Evaluate(w, e, store);
          var taken := if ValueOf(w, e, store) != 0 then Some(t) else f;
          CutIf(w, cfg, s, store);
          if taken.Some? {
            CutThenRest(cfg, w, taken.value, r.store);
            ThenAssociates(r, Cut(w, cfg, taken.value, r.store), w);
          }
        case Switch(_, e, cases) =>
          var r := Evaluate(w, e, store);
          var i := Chosen(Labels(cases), ValueOf(w, e, store));
          CutCasesThenRest(cfg, w, cases, i, r.store);
          ThenAssociates(r, CutCases(w, cfg, cases, i, r.store), w);
        case _ =>
      }
    }
  }

  lemma ThenAssociates(r: Run, c: CutRun, w: World)
    ensures Then(Run(c.store, r.trace + c.trace), ExecSeq(w, c.rest, c.store)) ==
            Then(r, Then(Run(c.store, c.trace), ExecSeq(w, c.rest, c.store)))
  {
    var e := ExecSeq(w, c.rest, c.store);
    assert r.trace + c.trace + e.trace == r.trace + (c.trace + e.trace);
  }

  lemma RunsAssociate(a: Run, b: Run, c: Run)
    ensures Then(a, Then(b, c)) == Then(Then(a, b), c)
  {
    assert a.trace + (b.trace + c.trace) == a.trace + b.trace + c.trace;
  }

  lemma {:induction false} CutSeqThenRest(cfg: Config, w: World, ss: seq<Stmt>, store: Store)
    ensures var c := CutSeq(w, cfg, ss, store);
            Then(Run(c.store, c.trace), ExecSeq(w, c.rest, c.store)) == ExecSeq(w, ss, store)
    decreases ss, 0
  {
    if ss != [] {
      if Contains(cfg, ss[0]) {
        var c := Cut(w, cfg, ss[0], store);
        CutThenRest(cfg, w, ss[0], store);
        ExecSeqAppend(w, c.rest, ss[1..], c.store);
        RunsAssociate(Run(c.store, c.trace), ExecSeq(w, c.rest, c.store),
                      ExecSeq(w, ss[1..], ExecSeq(w, c.rest, c.store).store));
      } else {
        var r := Exec(w, ss[0], store);
        CutSeqThenRest(cfg, w, ss[1..], r.store);
        ThenAssociates(r, CutSeq(w, cfg, ss[1..], r.store), w);
      }
    }
  }

  lemma {:induction false} CutCasesThenRest(cfg: Config, w: World, cases: seq<Case>, i: nat, store: Store)
    ensures var c := CutCases(w, cfg, cases, i, store);
            Then(Run(c.store, c.trace), ExecSeq(w, c.rest, c.store)) == ExecCases(w, cases, i, store)
    decreases cases, 0
  {
    if cases != [] {
      if i > 0 {
        CutCasesThenRest(cfg, w, cases[1..], i - 1, store);
      } else if cases[0].body.Some? {
        assert cases[0].body.value < cases[0];
        CutThenRest(cfg, w, cases[0].body.value, store);
      } else {
        CutCasesThenRest(cfg, w, cases[1..], 0, store);
      }
    }
  }

  predicate MatchesRoot(cfg: Config, root: Stmt) {
    !root.Decl? && cfg.matches(root)
  }

  /**
   Splitting preserves meaning. Running `before` and then `after` gives the events of the original
   in the same order exactly when the root itself does not match (or does nothing); the final
   stores then agree on every program variable.
   */
  lemma SplitPreservesMeaning(cfg: Config, w: World, root: Stmt, firstName: nat, store: Store)
    requires Oblivious(w) && IsSource(root)
    ensures var r := SplitRoot(cfg, root, firstName);
            var b := ExecOption(w, r.before, store);
            var a := ExecOption(w, r.after, b.store);
            var o := Exec(w, root, store);
            && (b.trace + a.trace == o.trace <==> !MatchesRoot(cfg, root) || o.trace == [])
            && (!MatchesRoot(cfg, root) ==> SameSource(a.store, o.store))
            && (forall n: string, k: nat | k < firstName ::
                  Lookup(a.store, Generated(n, k)) == Lookup(store, Generated(n, k)))
  {
    var st := State(firstName, {});
    var r := SplitRoot(cfg, root, firstName);
    var b := ExecOption(w, r.before, store);
    var a := ExecOption(w, r.after, b.store);
    var o := Exec(w, root, store);
    SplitFindsMatch(cfg, root, st);
    ExecSource(w, root, store, store);
    if !Contains(cfg, root) {
      assert o.trace + [] == o.trace;
    } else if MatchesRoot(cfg, root) {
      ExecSource(w, root, b.store, b.store);
      IdleEverywhere(w, root, store, b.store);
    } else {
      SplitKeepsBefore(cfg, root, st);
      SplitCorrect(cfg, w, root, st, store, store, b.store);
      CutThenRest(cfg, w, root, store);
      var c := Cut(w, cfg, root, store);
      IsSourceRest(cfg, w, root, store);
      ExecSeqSource(w, c.rest, c.store, b.store);
    }
  }

  /** Whether a source statement does anything at all does not depend on the store. */
  lemma {:induction false} IdleEverywhere(w: World, s: Stmt, store: Store, other: Store)
    requires IsSource(s)
    ensures Exec(w, s, store).trace == [] <==> Exec(w, s, other).trace == []
    decreases s, 1
  {
    if s.Block? { IdleSeqEverywhere(w, s.components, store, other); }
  }

  lemma {:induction false} IdleSeqEverywhere(w: World, ss: seq<Stmt>, store: Store, other: Store)
    requires IsSourceSeq(ss)
    ensures ExecSeq(w, ss, store).trace == [] <==> ExecSeq(w, ss, other).trace == []
    decreases ss, 0
  {
    if ss != [] {
      IdleEverywhere(w, ss[0], store, other);
      IdleSeqEverywhere(w, ss[1..], Exec(w, ss[0], store).store, Exec(w, ss[0], other).store);
    }
  }

  lemma SplitKeepsBefore(cfg: Config, s: Stmt, st: State)
    ensures Split(cfg, s, st).0.after.Some? && !MatchesRoot(cfg, s) ==> Split(cfg, s, st).0.before.Some?
  {
    if s.Block? && !cfg.matches(s) {
      SplitFromKeepsBefore(cfg, s, 0, st);
    }
  }

  lemma SplitFromKeepsBefore(cfg: Config, bs: Stmt, i: nat, st: State)
    requires bs.Block? && i <= |bs.components|
    ensures SplitFrom(cfg, bs, i, st).0.after.Some? ==> SplitFrom(cfg, bs, i, st).0.before.Some?
    decreases |bs.components| - i
  {
    if i < |bs.components| {
      SplitFromKeepsBefore(cfg, bs, i + 1, Split(cfg, bs.components[i], st).1);
    }
  }

  lemma {:induction false} IsSourceRest(cfg: Config, w: World, s: Stmt, store: Store)
    requires IsSource(s)
    ensures IsSourceSeq(Cut(w, cfg, s, store).rest)
    decreases s, 1
  {
    if Contains(cfg, s) && !cfg.matches(s) {
      match s
      case Block(_, components) => IsSourceRestSeq(cfg, w, components, store);
      case If(_, e, t, f) =>
        var r := Evaluate(w, e, store);
        IsSourceRest(cfg, w, t, r.store);
        if f.Some? { IsSourceRest(cfg, w, f.value, r.store); }
      case Switch(_, e, cases) =>
        IsSourceRestCases(cfg, w, cases, Chosen(Labels(cases), ValueOf(w, e, store)), Evaluate(w, e, store).store);
      case _ =>
    }
  }

  lemma {:induction false} IsSourceRestSeq(cfg: Config, w: World, ss: seq<Stmt>, store: Store)
    requires IsSourceSeq(ss)
    ensures IsSourceSeq(CutSeq(w, cfg, ss, store).rest)
    decreases ss, 0
  {
    if ss != [] {
      IsSourceRest(cfg, w, ss[0], store);
      IsSourceRestSeq(cfg, w, ss[1..], Exec(w, ss[0], store).store);
    }
  }

  lemma {:induction false} IsSourceRestCases(cfg: Config, w: World, cases: seq<Case>, i: nat, store: Store)
    requires IsSourceCases(cases)
    ensures IsSourceSeq(CutCases(w, cfg, cases, i, store).rest)
    decreases cases, 0
  {
    if cases != [] {
      if cases[0].body.Some? {
        assert cases[0].body.value < cases[0];
        IsSourceRest(cfg, w, cases[0].body.value, store);
      }
      IsSourceRestCases(cfg, w, cases[1..], if i > 0 then i - 1 else 0, store);
    }
  }

  /**
   Code may be inserted between the two halves: whatever it does to the program variables, as long
   as the saved conditions and selectors are left alone, `after` runs exactly the statements that
   remained when the original was stopped at the cut.
   */
  lemma AfterResumesAtCut(cfg: Config, w: World, root: Stmt, firstName: nat, store: Store, inserted: Store)
    requires Oblivious(w) && IsSource(root) && !MatchesRoot(cfg, root)
    requires SameGenerated(ExecOption(w, SplitRoot(cfg, root, firstName).before, store).store, inserted)
    ensures var r := SplitRoot(cfg, root, firstName);
            var c := Cut(w, cfg, root, store);
            && ExecOption(w, r.before, store).trace == c.trace
            && ExecOption(w, r.after, inserted).trace == ExecSeq(w, c.rest, inserted).trace
            && SameSource(ExecOption(w, r.after, inserted).store, ExecSeq(w, c.rest, inserted).store)
  {
    var st := State(firstName, {});
    SplitFindsMatch(cfg, root, st);
    if Contains(cfg, root) {
      SplitKeepsBefore(cfg, root, st);
      SplitCorrect(cfg, w, root, st, store, store, inserted);
    }
  }
}
