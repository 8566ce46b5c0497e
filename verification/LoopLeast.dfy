/** What a visitor ends with is the least solution of the flow inequalities of the program: nothing flows
    where control does not. */
module LoopLeast {
  import opened Wrappers
  import opened LoopFlow
  import opened LoopSound

  type Order<!A> = (A, A) -> bool

  /** Joins are least upper bounds, and more before a statement is more behind it. */
  ghost predicate Ordered<A(!new)>(an: Analysis<A>, leq: Order<A>) {
    && (forall a :: leq(a, a))
    && (forall a, b, c | leq(a, b) && leq(b, c) :: leq(a, c))
    && (forall a, b :: leq(a, an.join(a, b)) && leq(b, an.join(a, b)))
    && (forall a, b, c | leq(a, c) && leq(b, c) :: leq(an.join(a, b), c))
    && (forall id, a, b | leq(a, b) :: leq(an.transfer(id, a), an.transfer(id, b)))
  }

  predicate Below<A>(leq: Order<A>, x: Flow<A>, y: Flow<A>) {
    leq(x.facts, y.facts) && (y.unreachable ==> x.unreachable)
  }

  lemma BelowTrans<A(!new)>(an: Analysis<A>, leq: Order<A>, x: Flow<A>, y: Flow<A>, z: Flow<A>)
    requires Ordered(an, leq) && Below(leq, x, y) && Below(leq, y, z)
    ensures Below(leq, x, z)
  {
  }

  lemma MergeIsBound<A(!new)>(an: Analysis<A>, leq: Order<A>, x: Flow<A>, y: Flow<A>)
    requires Ordered(an, leq)
    ensures Below(leq, x, Merge(an, x, y)) && Below(leq, y, Merge(an, x, y))
  {
  }

  lemma MergeIsLeast<A(!new)>(an: Analysis<A>, leq: Order<A>, x: Flow<A>, y: Flow<A>, z: Flow<A>)
    requires Ordered(an, leq) && Below(leq, x, z) && Below(leq, y, z)
    ensures Below(leq, Merge(an, x, y), z)
  {
  }

  // ---------------------------------------------------------------- the inequalities

  function Apply<A>(an: Analysis<A>, id: nat, x: Flow<A>): Flow<A> {
    x.(facts := an.transfer(id, x.facts))
  }

  function ApplyAll<A>(an: Analysis<A>, ids: seq<nat>, x: Flow<A>): Flow<A> {
    if ids == [] then x else ApplyAll(an, ids[1..], Apply(an, ids[0], x))
  }

  /** What is known in a loop: at its head, at the end of the body, in front of the updates, and at the
      breaks and continues of the body. */
  datatype Points<A> = Points(head: Flow<A>, end: Flow<A>, next: Flow<A>, brk: Flow<A>, cont: Flow<A>)

  /** With `before` in front of `s`, the facts `after` it and at the breaks and continues that leave it
      account for every way control may go. */
  ghost predicate Solves<A(!new)>(an: Analysis<A>, leq: Order<A>, s: Stmt,
                                  before: Flow<A>, after: Flow<A>, brk: Flow<A>, cont: Flow<A>)
    decreases s, 1
  {
    match s
    case Simple(id) => Below(leq, Apply(an, id, before), after)
    case Block(components) => SolvesSeq(an, leq, components, before, after, brk, cont)
    case If(condition, t, f) =>
      var tested := Apply(an, condition, before);
      && Solves(an, leq, t, tested, after, brk, cont)
      && if f.Some? then Solves(an, leq, f.value, tested, after, brk, cont) else Below(leq, tested, after)
    case For(_, _, _, _) => exists p: Points<A> :: SolvesLoop(an, leq, s, before, after, p)
    case Break => Below(leq, before, brk) && Below(leq, before.(unreachable := true), after)
    case Continue => Below(leq, before, cont) && Below(leq, before.(unreachable := true), after)
  }

  ghost predicate SolvesLoop<A(!new)>(an: Analysis<A>, leq: Order<A>, s: Stmt, before: Flow<A>, after: Flow<A>, p: Points<A>)
    requires s.For?
    decreases s, 0
  {
    var tested := Apply(an, s.condition, p.head);
    && Below(leq, ApplyAll(an, s.init, before), p.head)
    && Below(leq, ApplyAll(an, s.updates, p.next), p.head)
    && Below(leq, p.end, p.next) && Below(leq, p.cont, p.next)
    && Below(leq, tested, after) && Below(leq, p.brk, after)
    && Solves(an, leq, s.body, tested, p.end, p.brk, p.cont)
  }

  ghost predicate SolvesSeq<A(!new)>(an: Analysis<A>, leq: Order<A>, ss: seq<Stmt>,
                                     before: Flow<A>, after: Flow<A>, brk: Flow<A>, cont: Flow<A>)
    decreases ss, 0
  {
    if ss == [] then Below(leq, before, after)
    else exists mid: Flow<A> ::
      Solves(an, leq, ss[0], before, mid, brk, cont) && SolvesSeq(an, leq, ss[1..], mid, after, brk, cont)
  }

  predicate BelowAt<A>(leq: Order<A>, g: Globals<A>, key: string, x: Flow<A>) {
    key in g ==> Below(leq, g[key], x)
  }

  predicate GlobalsBelow<A>(leq: Order<A>, g: Globals<A>, brk: Flow<A>, cont: Flow<A>) {
    BelowAt(leq, g, BREAK, brk) && BelowAt(leq, g, CONTINUE, cont)
  }

  lemma {:induction false} SimplesApply<A>(an: Analysis<A>, ids: seq<nat>, e: Env<A>)
    ensures VisitSimples(an, ids, e) == Env(ApplyAll(an, ids, e.cur), e.globals)
    decreases |ids|
  {
    if ids != [] { SimplesApply(an, ids[1..], VisitSimple(an, ids[0], e)); }
  }

  lemma ApplyMonotone<A(!new)>(an: Analysis<A>, leq: Order<A>, id: nat, x: Flow<A>, y: Flow<A>)
    requires Ordered(an, leq) && Below(leq, x, y)
    ensures Below(leq, Apply(an, id, x), Apply(an, id, y))
  {
  }

  lemma {:induction false} ApplyAllMonotone<A(!new)>(an: Analysis<A>, leq: Order<A>, ids: seq<nat>, x: Flow<A>, y: Flow<A>)
    requires Ordered(an, leq) && Below(leq, x, y)
    ensures Below(leq, ApplyAll(an, ids, x), ApplyAll(an, ids, y))
    decreases |ids|
  {
    if ids != [] {
      ApplyMonotone(an, leq, ids[0], x, y);
      ApplyAllMonotone(an, leq, ids[1..], Apply(an, ids[0], x), Apply(an, ids[0], y));
    }
  }

  lemma MergeFromBelow<A(!new)>(an: Analysis<A>, leq: Order<A>, e: Env<A>, key: string, x: Flow<A>)
    requires Ordered(an, leq) && Below(leq, e.cur, x) && BelowAt(leq, e.globals, key, x)
    ensures Below(leq, MergeGlobalFrom(an, e, key).cur, x)
  {
  }

  lemma MergeToBelow<A(!new)>(an: Analysis<A>, leq: Order<A>, e: Env<A>, key: string, x: Flow<A>)
    requires Ordered(an, leq) && Below(leq, e.cur, x) && BelowAt(leq, e.globals, key, x)
    ensures var g := MergeGlobalTo(an, e, key).globals;
            BelowAt(leq, g, key, x) && forall k | k != key :: k in g <==> k in e.globals && (k in g ==> g[k] == e.globals[k])
  {
  }

  lemma RestoreKeepsBoth<A>(globals: Globals<A>, saved: Globals<A>, key: string)
    requires key == BREAK || key == CONTINUE
    ensures var g := Restore(globals, saved); (key in g <==> key in saved) && (key in g ==> g[key] == saved[key])
  {
  }

  // ---------------------------------------------------------------- below every solution

  /** Whatever accounts for all ways control may go, above what the visitor starts with, is above what
      it ends with: facts, unreachable flag and both accumulators. */
  lemma {:induction false} VisitIsLeast<A(!new)>(an: Analysis<A>, leq: Order<A>, s: Stmt, e: Env<A>,
                                                 before: Flow<A>, after: Flow<A>, brk: Flow<A>, cont: Flow<A>)
    requires FiniteHeight(an) && Ordered(an, leq)
    requires Below(leq, e.cur, before) && GlobalsBelow(leq, e.globals, brk, cont)
    requires Solves(an, leq, s, before, after, brk, cont)
    ensures var out := Visit(an, s, e); Below(leq, out.cur, after) && GlobalsBelow(leq, out.globals, brk, cont)
    decreases s, 3, 0
  {
    match s
    case Simple(id) =>
      ApplyMonotone(an, leq, id, e.cur, before);
      BelowTrans(an, leq, Apply(an, id, e.cur), Apply(an, id, before), after);
    case Block(components) => VisitSeqIsLeast(an, leq, components, e, before, after, brk, cont);
    case If(condition, t, f) =>
      var c := VisitSimple(an, condition, e);
      var tested := Apply(an, condition, before);
      ApplyMonotone(an, leq, condition, e.cur, before);
      VisitIsLeast(an, leq, t, c, tested, after, brk, cont);
      var e1 := Visit(an, t, c);
      var w := c.(globals := e1.globals);
      var e2 := if f.Some? then Visit(an, f.value, w) else w;
      if f.Some? { VisitIsLeast(an, leq, f.value, w, tested, after, brk, cont); }
      else { BelowTrans(an, leq, c.cur, tested, after); }
      MergeIsLeast(an, leq, e1.cur, e2.cur, after);
    case For(_, _, _, _) => LoopIsLeast(an, leq, s, e, before, after, brk, cont);
    case Break =>
      MergeToBelow(an, leq, e, BREAK, brk);
      BelowTrans(an, leq, e.cur.(unreachable := true), before.(unreachable := true), after);
    case Continue =>
      MergeToBelow(an, leq, e, CONTINUE, cont);
      BelowTrans(an, leq, e.cur.(unreachable := true), before.(unreachable := true), after);
  }

  lemma {:induction false} VisitSeqIsLeast<A(!new)>(an: Analysis<A>, leq: Order<A>, ss: seq<Stmt>, e: Env<A>,
                                                    before: Flow<A>, after: Flow<A>, brk: Flow<A>, cont: Flow<A>)
    requires FiniteHeight(an) && Ordered(an, leq)
    requires Below(leq, e.cur, before) && GlobalsBelow(leq, e.globals, brk, cont)
    requires SolvesSeq(an, leq, ss, before, after, brk, cont)
    ensures var out := VisitSeq(an, ss, e); Below(leq, out.cur, after) && GlobalsBelow(leq, out.globals, brk, cont)
    decreases ss, 0, 0
  {
    if ss == [] {
      BelowTrans(an, leq, e.cur, before, after);
    } else {
      var mid: Flow<A> :| Solves(an, leq, ss[0], before, mid, brk, cont) && SolvesSeq(an, leq, ss[1..], mid, after, brk, cont);
      VisitIsLeast(an, leq, ss[0], e, before, mid, brk, cont);
      VisitSeqIsLeast(an, leq, ss[1..], Visit(an, ss[0], e), mid, after, brk, cont);
    }
  }

  lemma {:induction false} LoopIsLeast<A(!new)>(an: Analysis<A>, leq: Order<A>, s: Stmt, e: Env<A>,
                                                before: Flow<A>, after: Flow<A>, brk: Flow<A>, cont: Flow<A>)
    requires FiniteHeight(an) && Ordered(an, leq) && s.For?
    requires Below(leq, e.cur, before) && GlobalsBelow(leq, e.globals, brk, cont)
    requires Solves(an, leq, s, before, after, brk, cont)
    ensures var out := Visit(an, s, e); Below(leq, out.cur, after) && GlobalsBelow(leq, out.globals, brk, cont)
    decreases s, 2, 0
  {
    var p: Points<A> :| SolvesLoop(an, leq, s, before, after, p);
    SimplesApply(an, s.init, e);
    ApplyAllMonotone(an, leq, s.init, e.cur, before);
    var e1 := VisitSimples(an, s.init, e);
    BelowTrans(an, leq, e1.cur, ApplyAll(an, s.init, before), p.head);
    var start := e1.(globals := e1.globals - {BREAK, CONTINUE});
    RoundsAreLeast(an, leq, s, start, before, after, p);
    var inner := VisitRounds(an, s, start);
    BelowTrans(an, leq, inner.cur, Apply(an, s.condition, p.head), after);
    if BREAK in inner.globals { BelowTrans(an, leq, inner.globals[BREAK], p.brk, after); }
    MergeFromBelow(an, leq, inner, BREAK, after);
    var out := MergeGlobalFrom(an, inner, BREAK);
    RestoreKeepsBoth(out.globals, e1.globals, BREAK);
    RestoreKeepsBoth(out.globals, e1.globals, CONTINUE);
  }

  /** No round leaves what the points account for. */
  lemma {:induction false} RoundsAreLeast<A(!new)>(an: Analysis<A>, leq: Order<A>, s: Stmt, head: Env<A>,
      before: Flow<A>, after: Flow<A>, p: Points<A>)
    requires FiniteHeight(an) && Ordered(an, leq) && s.For? && SolvesLoop(an, leq, s, before, after, p)
    requires Below(leq, head.cur, p.head) && GlobalsBelow(leq, head.globals, p.brk, p.cont)
    ensures var out := VisitRounds(an, s, head);
            Below(leq, out.cur, Apply(an, s.condition, p.head)) && GlobalsBelow(leq, out.globals, p.brk, p.cont)
    decreases s, 1, Slack(an, head.cur)
  {
    var e := VisitRound(an, s, head);
    RoundIsLeast(an, leq, s, head, before, after, p);
    ApplyMonotone(an, leq, s.condition, head.cur, p.head);
    var next := Merge(an, e.cur, head.cur);
    if next != head.cur {
      MergeRises(an, e.cur, head.cur);
      MergeIsLeast(an, leq, e.cur, head.cur, p.head);
      RoundsAreLeast(an, leq, s, Env(next, e.globals), before, after, p);
    }
  }

  lemma {:induction false} RoundIsLeast<A(!new)>(an: Analysis<A>, leq: Order<A>, s: Stmt, head: Env<A>,
      before: Flow<A>, after: Flow<A>, p: Points<A>)
    requires FiniteHeight(an) && Ordered(an, leq) && s.For? && SolvesLoop(an, leq, s, before, after, p)
    requires Below(leq, head.cur, p.head) && GlobalsBelow(leq, head.globals, p.brk, p.cont)
    ensures var e := VisitRound(an, s, head); Below(leq, e.cur, p.head) && GlobalsBelow(leq, e.globals, p.brk, p.cont)
    decreases s, 0, 0
  {
    var c := VisitSimple(an, s.condition, head);
    ApplyMonotone(an, leq, s.condition, head.cur, p.head);
    VisitIsLeast(an, leq, s.body, c, Apply(an, s.condition, p.head), p.end, p.brk, p.cont);
    var e1 := Visit(an, s.body, c);
    BelowTrans(an, leq, e1.cur, p.end, p.next);
    if CONTINUE in e1.globals { BelowTrans(an, leq, e1.globals[CONTINUE], p.cont, p.next); }
    MergeFromBelow(an, leq, e1, CONTINUE, p.next);
    var e2 := MergeGlobalFrom(an, e1, CONTINUE);
    SimplesApply(an, s.updates, e2);
    ApplyAllMonotone(an, leq, s.updates, e2.cur, p.next);
    BelowTrans(an, leq, ApplyAll(an, s.updates, e2.cur), ApplyAll(an, s.updates, p.next), p.head);
  }

  // ---------------------------------------------------------------- itself a solution

  /** More behind a statement is still enough. */
  lemma {:induction false} SolvesUpwards<A(!new)>(an: Analysis<A>, leq: Order<A>, s: Stmt, before: Flow<A>, after: Flow<A>,
                                                  more: Flow<A>, brk: Flow<A>, cont: Flow<A>)
    requires Ordered(an, leq) && Solves(an, leq, s, before, after, brk, cont) && Below(leq, after, more)
    ensures Solves(an, leq, s, before, more, brk, cont)
    decreases s, 1
  {
    match s
    case Simple(id) => BelowTrans(an, leq, Apply(an, id, before), after, more);
    case Block(components) => SolvesSeqUpwards(an, leq, components, before, after, more, brk, cont);
    case If(condition, t, f) =>
      var tested := Apply(an, condition, before);
      SolvesUpwards(an, leq, t, tested, after, more, brk, cont);
      if f.Some? { SolvesUpwards(an, leq, f.value, tested, after, more, brk, cont); }
      else { BelowTrans(an, leq, tested, after, more); }
    case For(_, condition, _, _) =>
      var p: Points<A> :| SolvesLoop(an, leq, s, before, after, p);
      BelowTrans(an, leq, Apply(an, condition, p.head), after, more);
      BelowTrans(an, leq, p.brk, after, more);
      assert SolvesLoop(an, leq, s, before, more, p);
    case Break => BelowTrans(an, leq, before.(unreachable := true), after, more);
    case Continue => BelowTrans(an, leq, before.(unreachable := true), after, more);
  }

  lemma {:induction false} SolvesSeqUpwards<A(!new)>(an: Analysis<A>, leq: Order<A>, ss: seq<Stmt>, before: Flow<A>, after: Flow<A>,
                                                     more: Flow<A>, brk: Flow<A>, cont: Flow<A>)
    requires Ordered(an, leq) && SolvesSeq(an, leq, ss, before, after, brk, cont) && Below(leq, after, more)
    ensures SolvesSeq(an, leq, ss, before, more, brk, cont)
    decreases ss, 0
  {
    if ss == [] {
      BelowTrans(an, leq, before, after, more);
    } else {
      var mid: Flow<A> :| Solves(an, leq, ss[0], before, mid, brk, cont) && SolvesSeq(an, leq, ss[1..], mid, after, brk, cont);
      SolvesSeqUpwards(an, leq, ss[1..], mid, after, more, brk, cont);
    }
  }

  ghost predicate GlobalsRise<A(!new)>(leq: Order<A>, g: Globals<A>, h: Globals<A>) {
    forall brk, cont | GlobalsBelow(leq, h, brk, cont) :: GlobalsBelow(leq, g, brk, cont)
  }

  /** The accumulators only rise. */
  lemma {:induction false} VisitRises<A(!new)>(an: Analysis<A>, leq: Order<A>, s: Stmt, e: Env<A>)
    requires FiniteHeight(an) && Ordered(an, leq)
    ensures GlobalsRise(leq, e.globals, Visit(an, s, e).globals)
    decreases s, 1
  {
    match s
    case Simple(_) =>
    case Block(components) => VisitSeqRises(an, leq, components, e);
    case If(condition, t, f) =>
      var c := VisitSimple(an, condition, e);
      VisitRises(an, leq, t, c);
      if f.Some? { VisitRises(an, leq, f.value, c.(globals := Visit(an, t, c).globals)); }
    case For(_, _, _, _) => LoopKeepsBoth(an, s, e);
    case Break => MergeToRises(an, leq, e, BREAK);
    case Continue => MergeToRises(an, leq, e, CONTINUE);
  }

  lemma {:induction false} VisitSeqRises<A(!new)>(an: Analysis<A>, leq: Order<A>, ss: seq<Stmt>, e: Env<A>)
    requires FiniteHeight(an) && Ordered(an, leq)
    ensures GlobalsRise(leq, e.globals, VisitSeq(an, ss, e).globals)
    decreases ss, 0
  {
    if ss != [] {
      VisitRises(an, leq, ss[0], e);
      VisitSeqRises(an, leq, ss[1..], Visit(an, ss[0], e));
    }
  }

  lemma LoopKeepsBoth<A(!new)>(an: Analysis<A>, s: Stmt, e: Env<A>)
    requires FiniteHeight(an) && s.For?
    ensures var g := Visit(an, s, e).globals;
            && (BREAK in g <==> BREAK in e.globals) && (BREAK in g ==> g[BREAK] == e.globals[BREAK])
            && (CONTINUE in g <==> CONTINUE in e.globals) && (CONTINUE in g ==> g[CONTINUE] == e.globals[CONTINUE])
  {
    SimplesApply(an, s.init, e);
    var e1 := VisitSimples(an, s.init, e);
    var out := MergeGlobalFrom(an, VisitRounds(an, s, e1.(globals := e1.globals - {BREAK, CONTINUE})), BREAK);
    RestoreKeepsBoth(out.globals, e1.globals, BREAK);
    RestoreKeepsBoth(out.globals, e1.globals, CONTINUE);
  }

  lemma MergeToRises<A(!new)>(an: Analysis<A>, leq: Order<A>, e: Env<A>, key: string)
    requires Ordered(an, leq)
    ensures var g := MergeGlobalTo(an, e, key).globals;
            && GlobalsRise(leq, e.globals, g)
            && key in g && forall x | Below(leq, g[key], x) :: Below(leq, e.cur, x)
  {
    if key in e.globals { MergeIsBound(an, leq, e.globals[key], e.cur); }
  }

  /** What the visitor ends with accounts for all ways control may go; together with `VisitIsLeast`, it is
      the least that does. */
  lemma {:induction false} VisitSolves<A(!new)>(an: Analysis<A>, leq: Order<A>, s: Stmt, e: Env<A>, brk: Flow<A>, cont: Flow<A>)
    requires FiniteHeight(an) && Ordered(an, leq) && GlobalsBelow(leq, Visit(an, s, e).globals, brk, cont)
    ensures Solves(an, leq, s, e.cur, Visit(an, s, e).cur, brk, cont)
    decreases s, 3, 0
  {
    match s
    case Simple(_) =>
    case Block(components) => VisitSeqSolves(an, leq, components, e, brk, cont);
    case If(condition, t, f) =>
      var c := VisitSimple(an, condition, e);
      var e1 := Visit(an, t, c);
      var w := c.(globals := e1.globals);
      var e2 := if f.Some? then Visit(an, f.value, w) else w;
      var out := Merge(an, e1.cur, e2.cur);
      if f.Some? {
        VisitRises(an, leq, f.value, w);
        VisitSolves(an, leq, f.value, w, brk, cont);
      }
      VisitSolves(an, leq, t, c, brk, cont);
      MergeIsBound(an, leq, e1.cur, e2.cur);
      SolvesUpwards(an, leq, t, c.cur, e1.cur, out, brk, cont);
      if f.Some? { SolvesUpwards(an, leq, f.value, c.cur, e2.cur, out, brk, cont); }
    case For(_, _, _, _) => LoopSolves(an, leq, s, e, brk, cont);
    case Break => MergeToRises(an, leq, e, BREAK);
    case Continue => MergeToRises(an, leq, e, CONTINUE);
  }

  lemma {:induction false} VisitSeqSolves<A(!new)>(an: Analysis<A>, leq: Order<A>, ss: seq<Stmt>, e: Env<A>, brk: Flow<A>, cont: Flow<A>)
    requires FiniteHeight(an) && Ordered(an, leq) && GlobalsBelow(leq, VisitSeq(an, ss, e).globals, brk, cont)
    ensures SolvesSeq(an, leq, ss, e.cur, VisitSeq(an, ss, e).cur, brk, cont)
    decreases ss, 0, 0
  {
    if ss != [] {
      var e1 := Visit(an, ss[0], e);
      VisitSeqRises(an, leq, ss[1..], e1);
      VisitSolves(an, leq, ss[0], e, brk, cont);
      VisitSeqSolves(an, leq, ss[1..], e1, brk, cont);
      assert Solves(an, leq, ss[0], e.cur, e1.cur, brk, cont);
    }
  }

  /** The last round: its head is stable, and the loop is left from there. */
  lemma {:induction false} LastRound<A(!new)>(an: Analysis<A>, leq: Order<A>, s: Stmt, start: Env<A>) returns (head: Env<A>)
    requires FiniteHeight(an) && Ordered(an, leq) && s.For?
    ensures Below(leq, start.cur, head.cur) && Below(leq, VisitRound(an, s, head).cur, head.cur)
    ensures VisitRounds(an, s, start) == Env(Apply(an, s.condition, head.cur), VisitRound(an, s, head).globals)
    decreases Slack(an, start.cur)
  {
    var e := VisitRound(an, s, start);
    var next := Merge(an, e.cur, start.cur);
    MergeIsBound(an, leq, e.cur, start.cur);
    if next == start.cur {
      head := start;
    } else {
      MergeRises(an, e.cur, start.cur);
      head := LastRound(an, leq, s, Env(next, e.globals));
      BelowTrans(an, leq, start.cur, next, head.cur);
    }
  }

  lemma {:induction false} LoopSolves<A(!new)>(an: Analysis<A>, leq: Order<A>, s: Stmt, e: Env<A>, brk: Flow<A>, cont: Flow<A>)
    requires FiniteHeight(an) && Ordered(an, leq) && s.For?
    ensures Solves(an, leq, s, e.cur, Visit(an, s, e).cur, brk, cont)
    decreases s, 2, 0
  {
    SimplesApply(an, s.init, e);
    var e1 := VisitSimples(an, s.init, e);
    var start := e1.(globals := e1.globals - {BREAK, CONTINUE});
    var head := LastRound(an, leq, s, start);
    var tested := VisitSimple(an, s.condition, head);
    var body := Visit(an, s.body, tested);
    var joined := MergeGlobalFrom(an, body, CONTINUE);
    SimplesApply(an, s.updates, joined);
    var inner := VisitRounds(an, s, start);
    var out := MergeGlobalFrom(an, inner, BREAK).cur;
    assert inner.globals == body.globals && Visit(an, s, e).cur == out;
    var p := Points(head.cur, body.cur, joined.cur,
                    if BREAK in body.globals then body.globals[BREAK] else out,
                    if CONTINUE in body.globals then body.globals[CONTINUE] else body.cur);
    VisitSolves(an, leq, s.body, tested, p.brk, p.cont);
    MergedFrom(an, leq, body, CONTINUE);
    MergedFrom(an, leq, inner, BREAK);
    assert SolvesLoop(an, leq, s, e.cur, out, p);
  }

  lemma MergedFrom<A(!new)>(an: Analysis<A>, leq: Order<A>, e: Env<A>, key: string)
    requires Ordered(an, leq)
    ensures var m := MergeGlobalFrom(an, e, key);
            m.globals == e.globals && Below(leq, e.cur, m.cur) && BelowAt(leq, e.globals, key, m.cur)
  {
    if key in e.globals { MergeIsBound(an, leq, e.cur, e.globals[key]); }
  }
}
