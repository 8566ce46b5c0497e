/** The loop driver covers every concrete execution, keeps outer accumulators, and terminates. */
module LoopSound {
  import opened Wrappers
  import opened LoopFlow

  // ---------------------------------------------------------------- concrete execution

  datatype Machine<!C> = Machine(step: (nat, C) -> C, test: (nat, C) -> bool)

  datatype Outcome<C> = Normal(c: C) | Broke(c: C) | Continued(c: C) | OutOfFuel

  function RunSimples<C>(m: Machine<C>, ids: seq<nat>, c: C): C {
    if ids == [] then c else RunSimples(m, ids[1..], m.step(ids[0], c))
  }

  /** Runs `s`; a loop that needs more than `fuel` rounds gives no outcome. */
  function Run<C>(m: Machine<C>, s: Stmt, c: C, fuel: nat): Outcome<C>
    decreases s, 1, 0
  {
    match s
    case Simple(id) => Normal(m.step(id, c))
    case Block(components) => RunSeq(m, components, c, fuel)
    case If(condition, t, f) =>
      var c1 := m.step(condition, c);
      if m.test(condition, c) then Run(m, t, c1, fuel)
      else if f.Some? then Run(m, f.value, c1, fuel)
      else Normal(c1)
    case For(init, _, _, _) => RunLoop(m, s, RunSimples(m, init, c), fuel, fuel)
    case Break => Broke(c)
    case Continue => Continued(c)
  }

  function RunSeq<C>(m: Machine<C>, ss: seq<Stmt>, c: C, fuel: nat): Outcome<C>
    decreases ss, 0, 0
  {
    if ss == [] then Normal(c)
    else
      var r := Run(m, ss[0], c, fuel);
      if r.Normal? then RunSeq(m, ss[1..], r.c, fuel) else r
  }

  /** At most `rounds` rounds from the loop head; a break leaves the loop, a continue goes to the updates. */
  function RunLoop<C>(m: Machine<C>, s: Stmt, c: C, fuel: nat, rounds: nat): Outcome<C>
    requires s.For?
    decreases s, 0, rounds
  {
    if rounds == 0 then OutOfFuel
    else
      var c1 := m.step(s.condition, c);
      if !m.test(s.condition, c) then Normal(c1)
      else
        match Run(m, s.body, c1, fuel)
        case Normal(c2) => RunLoop(m, s, RunSimples(m, s.updates, c2), fuel, rounds - 1)
        case Continued(c2) => RunLoop(m, s, RunSimples(m, s.updates, c2), fuel, rounds - 1)
        case Broke(c2) => Normal(c2)
        case OutOfFuel => OutOfFuel
  }

  // ---------------------------------------------------------------- what it means to cover

  /** The analysis is sound for the machine, statement by statement and at joins. */
  ghost predicate Sound<A(!new), C(!new)>(an: Analysis<A>, m: Machine<C>, covers: (A, C) -> bool) {
    && (forall id, a, c | covers(a, c) :: covers(an.transfer(id, a), m.step(id, c)))
    && (forall a, b, c | covers(a, c) || covers(b, c) :: covers(an.join(a, b), c))
  }

  predicate Covers<A, C>(covers: (A, C) -> bool, x: Flow<A>, c: C) {
    !x.unreachable && covers(x.facts, c)
  }

  predicate CoversAt<A, C>(covers: (A, C) -> bool, g: Globals<A>, key: string, c: C) {
    key in g && Covers(covers, g[key], c)
  }

  /** Everything `g` covers is still covered in `h`. */
  ghost predicate Above<A(!new), C(!new)>(covers: (A, C) -> bool, g: Globals<A>, h: Globals<A>) {
    forall key, c | CoversAt(covers, g, key, c) :: CoversAt(covers, h, key, c)
  }

  ghost predicate OutcomeCovered<A(!new), C(!new)>(covers: (A, C) -> bool, e: Env<A>, r: Outcome<C>) {
    match r
    case Normal(c) => Covers(covers, e.cur, c)
    case Broke(c) => CoversAt(covers, e.globals, BREAK, c)
    case Continued(c) => CoversAt(covers, e.globals, CONTINUE, c)
    case OutOfFuel => true
  }

  lemma {:induction false} SimplesSound<A(!new), C(!new)>(an: Analysis<A>, m: Machine<C>, covers: (A, C) -> bool,
                                                        ids: seq<nat>, e: Env<A>, c: C)
    requires Sound(an, m, covers)
    ensures VisitSimples(an, ids, e).globals == e.globals
    ensures Covers(covers, e.cur, c) ==> Covers(covers, VisitSimples(an, ids, e).cur, RunSimples(m, ids, c))
    decreases |ids|
  {
    if ids != [] {
      SimplesSound(an, m, covers, ids[1..], VisitSimple(an, ids[0], e), m.step(ids[0], c));
    }
  }

  // ---------------------------------------------------------------- nesting

  /** Visiting a loop leaves the accumulators of the loop around it exactly as they were. */
  lemma LoopKeepsOuterGlobals<A(!new)>(an: Analysis<A>, s: Stmt, e: Env<A>)
    requires FiniteHeight(an) && s.For?
    requires e.globals.Keys <= {BREAK, CONTINUE}
    ensures Visit(an, s, e).globals == e.globals
  {
    var e1 := VisitSimples(an, s.init, e);
    SimplesKeepGlobals(an, s.init, e);
    RoundsKeepKeys(an, s, e1.(globals := e1.globals - {BREAK, CONTINUE}));
  }

  lemma {:induction false} SimplesKeepGlobals<A>(an: Analysis<A>, ids: seq<nat>, e: Env<A>)
    ensures VisitSimples(an, ids, e).globals == e.globals
    decreases |ids|
  {
    if ids != [] { SimplesKeepGlobals(an, ids[1..], VisitSimple(an, ids[0], e)); }
  }

  /** Nothing but the two accumulators is ever put in the shared table. */
  lemma {:induction false} VisitKeepsKeys<A(!new)>(an: Analysis<A>, s: Stmt, e: Env<A>)
    requires FiniteHeight(an) && e.globals.Keys <= {BREAK, CONTINUE}
    ensures Visit(an, s, e).globals.Keys <= {BREAK, CONTINUE}
    decreases s, 1, 0
  {
    match s
    case Block(components) => VisitSeqKeepsKeys(an, components, e);
    case If(condition, t, f) =>
      var c := VisitSimple(an, condition, e);
      VisitKeepsKeys(an, t, c);
      if f.Some? { VisitKeepsKeys(an, f.value, c.(globals := Visit(an, t, c).globals)); }
    case For(_, _, _, _) =>
      SimplesKeepGlobals(an, s.init, e);
      var e1 := VisitSimples(an, s.init, e);
      RoundsKeepKeys(an, s, e1.(globals := e1.globals - {BREAK, CONTINUE}));
    case _ =>
  }

  lemma {:induction false} VisitSeqKeepsKeys<A(!new)>(an: Analysis<A>, ss: seq<Stmt>, e: Env<A>)
    requires FiniteHeight(an) && e.globals.Keys <= {BREAK, CONTINUE}
    ensures VisitSeq(an, ss, e).globals.Keys <= {BREAK, CONTINUE}
    decreases ss, 0, 0
  {
    if ss != [] {
      VisitKeepsKeys(an, ss[0], e);
      VisitSeqKeepsKeys(an, ss[1..], Visit(an, ss[0], e));
    }
  }

  lemma {:induction false} RoundsKeepKeys<A(!new)>(an: Analysis<A>, s: Stmt, head: Env<A>)
    requires FiniteHeight(an) && s.For? && head.globals.Keys <= {BREAK, CONTINUE}
    ensures VisitRounds(an, s, head).globals.Keys <= {BREAK, CONTINUE}
    decreases s, 0, Slack(an, head.cur)
  {
    var e1 := Visit(an, s.body, VisitSimple(an, s.condition, head));
    VisitKeepsKeys(an, s.body, VisitSimple(an, s.condition, head));
    SimplesKeepGlobals(an, s.updates, MergeGlobalFrom(an, e1, CONTINUE));
    var e := VisitRound(an, s, head);
    var next := Merge(an, e.cur, head.cur);
    if next != head.cur {
      MergeRises(an, e.cur, head.cur);
      RoundsKeepKeys(an, s, Env(next, e.globals));
    }
  }

  // ---------------------------------------------------------------- termination

  /** The loop-head states of the successive rounds. */
  function Heads<A(==,!new)>(an: Analysis<A>, s: Stmt, head: Env<A>): seq<Flow<A>>
    requires FiniteHeight(an) && s.For?
    decreases Slack(an, head.cur)
  {
    var e := VisitRound(an, s, head);
    var next := Merge(an, e.cur, head.cur);
    if next == head.cur then [head.cur]
    else
      MergeRises(an, e.cur, head.cur);
      [head.cur] + Heads(an, s, Env(next, e.globals))
  }

  /** Every round but the last strictly raises the loop head, so the height bounds their number. */
  lemma {:induction false} RoundsBoundedByHeight<A(!new)>(an: Analysis<A>, s: Stmt, head: Env<A>)
    requires FiniteHeight(an) && s.For?
    ensures var heads := Heads(an, s, head);
            && 0 < |heads| <= Slack(an, head.cur) + 1 && heads[0] == head.cur
            && forall i | 0 < i < |heads| :: Slack(an, heads[i]) < Slack(an, heads[i - 1])
    decreases Slack(an, head.cur)
  {
    var e := VisitRound(an, s, head);
    var next := Merge(an, e.cur, head.cur);
    if next != head.cur {
      MergeRises(an, e.cur, head.cur);
      RoundsBoundedByHeight(an, s, Env(next, e.globals));
    }
  }

  // ---------------------------------------------------------------- soundness

  lemma MergeToSound<A(!new), C(!new)>(an: Analysis<A>, m: Machine<C>, covers: (A, C) -> bool, e: Env<A>, key: string)
    requires Sound(an, m, covers)
    ensures Above(covers, e.globals, MergeGlobalTo(an, e, key).globals)
    ensures forall c | Covers(covers, e.cur, c) :: CoversAt(covers, MergeGlobalTo(an, e, key).globals, key, c)
  {
  }

  /**
   Soundness of the visit of any nest of loops, branches, breaks and continues: whatever the machine
   does from a state the visitor covers, after any number of rounds of each loop, is covered by the
   visitor afterwards, or by the accumulator for the jump it made; and accumulators only grow.
   */
  lemma {:induction false} VisitSound<A(!new), C(!new)>(an: Analysis<A>, m: Machine<C>, covers: (A, C) -> bool,
                                                         s: Stmt, e: Env<A>, c: C, fuel: nat)
    requires FiniteHeight(an) && Sound(an, m, covers)
    requires e.globals.Keys <= {BREAK, CONTINUE}
    ensures Above(covers, e.globals, Visit(an, s, e).globals)
    ensures Covers(covers, e.cur, c) ==> OutcomeCovered(covers, Visit(an, s, e), Run(m, s, c, fuel))
    decreases s, 3, 0
  {
    match s
    case Simple(id) =>
    case Block(components) => VisitSeqSound(an, m, covers, components, e, c, fuel);
    case If(_, _, _) => VisitIfSound(an, m, covers, s, e, c, fuel);
    case For(_, _, _, _) =>
      LoopKeepsOuterGlobals(an, s, e);
      VisitForSound(an, m, covers, s, e, c, fuel);
    case Break => MergeToSound(an, m, covers, e, BREAK);
    case Continue => MergeToSound(an, m, covers, e, CONTINUE);
  }

  lemma {:induction false} VisitSeqSound<A(!new), C(!new)>(an: Analysis<A>, m: Machine<C>, covers: (A, C) -> bool,
                                                            ss: seq<Stmt>, e: Env<A>, c: C, fuel: nat)
    requires FiniteHeight(an) && Sound(an, m, covers)
    requires e.globals.Keys <= {BREAK, CONTINUE}
    ensures Above(covers, e.globals, VisitSeq(an, ss, e).globals)
    ensures Covers(covers, e.cur, c) ==> OutcomeCovered(covers, VisitSeq(an, ss, e), RunSeq(m, ss, c, fuel))
    decreases ss, 0, 0
  {
    if ss != [] {
      var e1 := Visit(an, ss[0], e);
      var r := Run(m, ss[0], c, fuel);
      VisitSound(an, m, covers, ss[0], e, c, fuel);
      VisitKeepsKeys(an, ss[0], e);
      VisitSeqSound(an, m, covers, ss[1..], e1, if r.Normal? then r.c else c, fuel);
    }
  }

  lemma {:induction false} VisitIfSound<A(!new), C(!new)>(an: Analysis<A>, m: Machine<C>, covers: (A, C) -> bool,
                                                           s: Stmt, e: Env<A>, c: C, fuel: nat)
    requires FiniteHeight(an) && Sound(an, m, covers) && s.If?
    requires e.globals.Keys <= {BREAK, CONTINUE}
    ensures Above(covers, e.globals, Visit(an, s, e).globals)
    ensures Covers(covers, e.cur, c) ==> OutcomeCovered(covers, Visit(an, s, e), Run(m, s, c, fuel))
    decreases s, 1, 0
  {
    var v := VisitSimple(an, s.condition, e);
    var c1 := m.step(s.condition, c);
    var e1 := Visit(an, s.ifTrue, v);
    VisitSound(an, m, covers, s.ifTrue, v, c1, fuel);
    VisitKeepsKeys(an, s.ifTrue, v);
    var w := v.(globals := e1.globals);
    var e2 := if s.ifFalse.Some? then Visit(an, s.ifFalse.value, w) else w;
    if s.ifFalse.Some? {
      VisitSound(an, m, covers, s.ifFalse.value, w, c1, fuel);
    }
    var r := Run(m, s, c, fuel);
    if Covers(covers, e.cur, c) && r.Normal? {
    }
  }

  lemma {:induction false} VisitForSound<A(!new), C(!new)>(an: Analysis<A>, m: Machine<C>, covers: (A, C) -> bool,
                                                            s: Stmt, e: Env<A>, c: C, fuel: nat)
    requires FiniteHeight(an) && Sound(an, m, covers) && s.For?
    requires e.globals.Keys <= {BREAK, CONTINUE}
    ensures Covers(covers, e.cur, c) ==> OutcomeCovered(covers, Visit(an, s, e), Run(m, s, c, fuel))
    decreases s, 2, 0
  {
    if Covers(covers, e.cur, c) {
      var e1 := VisitSimples(an, s.init, e);
      var c1 := RunSimples(m, s.init, c);
      SimplesSound(an, m, covers, s.init, e, c);
      var start := e1.(globals := e1.globals - {BREAK, CONTINUE});
      RoundsSound(an, m, covers, s, start, c1, fuel, fuel);
    }
  }

  /** From any head of the iteration: the exits of the loop, by condition or by break, are covered. */
  lemma {:induction false} RoundsSound<A(!new), C(!new)>(an: Analysis<A>, m: Machine<C>, covers: (A, C) -> bool,
                                                          s: Stmt, head: Env<A>, c: C, fuel: nat, rounds: nat)
    requires FiniteHeight(an) && Sound(an, m, covers) && s.For?
    requires head.globals.Keys <= {BREAK, CONTINUE} && Covers(covers, head.cur, c)
    ensures var out := MergeGlobalFrom(an, VisitRounds(an, s, head), BREAK);
            var r := RunLoop(m, s, c, fuel, rounds);
            !r.Broke? && !r.Continued? && (r.Normal? ==> Covers(covers, out.cur, r.c))
    decreases s, 1, Slack(an, head.cur)
  {
    var e := VisitRound(an, s, head);
    var next := Merge(an, e.cur, head.cur);
    RoundKeepsKeys(an, s, head);
    if next == head.cur {
      FixpointSound(an, m, covers, s, head, c, fuel, rounds);
    } else {
      MergeRises(an, e.cur, head.cur);
      RoundsSound(an, m, covers, s, Env(next, e.globals), c, fuel, rounds);
    }
  }

  lemma RoundKeepsKeys<A(!new)>(an: Analysis<A>, s: Stmt, head: Env<A>)
    requires FiniteHeight(an) && s.For? && head.globals.Keys <= {BREAK, CONTINUE}
    ensures VisitRound(an, s, head).globals.Keys <= {BREAK, CONTINUE}
  {
    var e1 := Visit(an, s.body, VisitSimple(an, s.condition, head));
    VisitKeepsKeys(an, s.body, VisitSimple(an, s.condition, head));
    SimplesKeepGlobals(an, s.updates, MergeGlobalFrom(an, e1, CONTINUE));
  }

  /** In the last round the head covers every state the machine reaches at the loop head. */
  lemma {:induction false} FixpointSound<A(!new), C(!new)>(an: Analysis<A>, m: Machine<C>, covers: (A, C) -> bool,
                                                            s: Stmt, head: Env<A>, c: C, fuel: nat, rounds: nat)
    requires FiniteHeight(an) && Sound(an, m, covers) && s.For?
    requires head.globals.Keys <= {BREAK, CONTINUE} && Covers(covers, head.cur, c)
    requires Merge(an, VisitRound(an, s, head).cur, head.cur) == head.cur
    ensures var out := MergeGlobalFrom(an, VisitRounds(an, s, head), BREAK);
            var r := RunLoop(m, s, c, fuel, rounds);
            !r.Broke? && !r.Continued? && (r.Normal? ==> Covers(covers, out.cur, r.c))
    decreases s, 0, rounds, 0
  {
    if rounds > 0 {
      var v := VisitSimple(an, s.condition, head);
      var c1 := m.step(s.condition, c);
      var last := VisitRounds(an, s, head);
      assert last == Env(v.cur, VisitRound(an, s, head).globals);
      var e1 := Visit(an, s.body, v);
      SimplesKeepGlobals(an, s.updates, MergeGlobalFrom(an, e1, CONTINUE));
      if !m.test(s.condition, c) {
        ExitCovered(an, m, covers, last, c1);
      } else {
        VisitSound(an, m, covers, s.body, v, c1, fuel);
        match Run(m, s.body, c1, fuel)
        case Broke(c2) => ExitCovered(an, m, covers, last, c2);
        case OutOfFuel =>
        case Normal(c2) => NextRoundSound(an, m, covers, s, head, e1, c2, fuel, rounds);
        case Continued(c2) => NextRoundSound(an, m, covers, s, head, e1, c2, fuel, rounds);
      }
    }
  }

  lemma {:induction false} NextRoundSound<A(!new), C(!new)>(an: Analysis<A>, m: Machine<C>, covers: (A, C) -> bool,
                                                             s: Stmt, head: Env<A>, e1: Env<A>, c2: C, fuel: nat, rounds: nat)
    requires FiniteHeight(an) && Sound(an, m, covers) && s.For? && rounds > 0
    requires head.globals.Keys <= {BREAK, CONTINUE}
    requires Merge(an, VisitRound(an, s, head).cur, head.cur) == head.cur
    requires e1 == Visit(an, s.body, VisitSimple(an, s.condition, head))
    requires Covers(covers, e1.cur, c2) || CoversAt(covers, e1.globals, CONTINUE, c2)
    ensures var out := MergeGlobalFrom(an, VisitRounds(an, s, head), BREAK);
            var r := RunLoop(m, s, RunSimples(m, s.updates, c2), fuel, rounds - 1);
            !r.Broke? && !r.Continued? && (r.Normal? ==> Covers(covers, out.cur, r.c))
    decreases s, 0, rounds - 1, 1
  {
    var e2 := MergeGlobalFrom(an, e1, CONTINUE);
    assert Covers(covers, e2.cur, c2);
    SimplesSound(an, m, covers, s.updates, e2, c2);
    var c3 := RunSimples(m, s.updates, c2);
    FixpointSound(an, m, covers, s, head, c3, fuel, rounds - 1);
  }

  lemma ExitCovered<A(!new), C(!new)>(an: Analysis<A>, m: Machine<C>, covers: (A, C) -> bool, last: Env<A>, c: C)
    requires Sound(an, m, covers)
    requires Covers(covers, last.cur, c) || CoversAt(covers, last.globals, BREAK, c)
    ensures Covers(covers, MergeGlobalFrom(an, last, BREAK).cur, c)
  {
  }
}
