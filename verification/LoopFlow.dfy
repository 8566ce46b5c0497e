/** Data flow through loops: `visit_children` of for, break and continue with a control-flow visitor. */
module LoopFlow {
  import opened Wrappers

  /** Simple statements, conditions, initialisers and updates are named by number; their meaning is
      given by an `Analysis` and, concretely, by a `Machine`. */
  datatype Stmt =
    | Simple(id: nat)
    | Block(components: seq<Stmt>)
    | If(condition: nat, ifTrue: Stmt, ifFalse: Option<Stmt>)
    | For(init: seq<nat>, condition: nat, updates: seq<nat>, body: Stmt)
    | Break
    | Continue

  // ---------------------------------------------------------------- the abstract domain

  /** A pass: what it does at each statement, how it joins, and how far a fact is from the top. */
  datatype Analysis<!A> = Analysis(transfer: (nat, A) -> A, join: (A, A) -> A, height: A -> nat)

  /** Joins rise: a join differs from its second operand only by being strictly closer to the top. */
  ghost predicate FiniteHeight<A(!new)>(an: Analysis<A>) {
    forall a: A, b: A :: an.join(a, b) != b ==> an.height(an.join(a, b)) < an.height(b)
  }

  /** The state of a visitor: what it knows, and whether control cannot get here. */
  datatype Flow<A> = Flow(facts: A, unreachable: bool)

  function Merge<A>(an: Analysis<A>, x: Flow<A>, y: Flow<A>): Flow<A> {
    Flow(an.join(x.facts, y.facts), x.unreachable && y.unreachable)
  }

  /** How many times a state can still rise. */
  function Slack<A>(an: Analysis<A>, x: Flow<A>): nat {
    2 * an.height(x.facts) + if x.unreachable then 1 else 0
  }

  lemma MergeRises<A(!new)>(an: Analysis<A>, x: Flow<A>, top: Flow<A>)
    requires FiniteHeight(an) && Merge(an, x, top) != top
    ensures Slack(an, Merge(an, x, top)) < Slack(an, top)
  {
  }

  const BREAK := "-BREAK-"
  const CONTINUE := "-CONTINUE-"

  type Globals<A> = map<string, Flow<A>>

  /** A visitor and the table it shares with its clones. */
  datatype Env<A> = Env(cur: Flow<A>, globals: Globals<A>)

  function MergeGlobalTo<A>(an: Analysis<A>, e: Env<A>, key: string): Env<A> {
    e.(globals := e.globals[key := if key in e.globals then Merge(an, e.globals[key], e.cur) else e.cur])
  }

  function MergeGlobalFrom<A>(an: Analysis<A>, e: Env<A>, key: string): Env<A> {
    if key in e.globals then e.(cur := Merge(an, e.cur, e.globals[key])) else e
  }

  function VisitSimple<A>(an: Analysis<A>, id: nat, e: Env<A>): Env<A> {
    e.(cur := e.cur.(facts := an.transfer(id, e.cur.facts)))
  }

  function VisitSimples<A>(an: Analysis<A>, ids: seq<nat>, e: Env<A>): Env<A> {
    if ids == [] then e else VisitSimples(an, ids[1..], VisitSimple(an, ids[0], e))
  }

  /** What visiting `s` does to a visitor. */
  function Visit<A(==,!new)>(an: Analysis<A>, s: Stmt, e: Env<A>): Env<A>
    requires FiniteHeight(an)
    decreases s, 1, 0
  {
    match s
    case Simple(id) => VisitSimple(an, id, e)
    case Block(components) => VisitSeq(an, components, e)
    case If(condition, t, f) =>
      var c := VisitSimple(an, condition, e);
      var e1 := Visit(an, t, c);
      var e2 := if f.Some? then Visit(an, f.value, c.(globals := e1.globals)) else c.(globals := e1.globals);
      Env(Merge(an, e1.cur, e2.cur), e2.globals)
    case For(init, _, _, _) =>
      var e1 := VisitSimples(an, init, e);
      var inner := VisitRounds(an, s, e1.(globals := e1.globals - {BREAK, CONTINUE}));
      var out := MergeGlobalFrom(an, inner, BREAK);
      out.(globals := Restore(out.globals, e1.globals))
    case Break => MergeGlobalTo(an, e, BREAK).(cur := e.cur.(unreachable := true))
    case Continue => MergeGlobalTo(an, e, CONTINUE).(cur := e.cur.(unreachable := true))
  }

  /** `SaveGlobal` put back: both accumulators as they were saved. */
  function Restore<A>(globals: Globals<A>, saved: Globals<A>): Globals<A> {
    RestoreKey(RestoreKey(globals, saved, CONTINUE), saved, BREAK)
  }

  function RestoreKey<A>(globals: Globals<A>, saved: Globals<A>, key: string): Globals<A> {
    var erased := globals - {key};
    if key in saved then erased[key := saved[key]] else erased
  }

  function VisitSeq<A(==,!new)>(an: Analysis<A>, ss: seq<Stmt>, e: Env<A>): Env<A>
    requires FiniteHeight(an)
    decreases ss, 0, 0
  {
    if ss == [] then e else VisitSeq(an, ss[1..], Visit(an, ss[0], e))
  }

  /** One round of a loop from its head: the body, what continued, the updates. */
  function VisitRound<A(==,!new)>(an: Analysis<A>, s: Stmt, head: Env<A>): Env<A>
    requires FiniteHeight(an) && s.For?
    decreases s, 0, 0
  {
    var e1 := Visit(an, s.body, VisitSimple(an, s.condition, head));
    VisitSimples(an, s.updates, MergeGlobalFrom(an, e1, CONTINUE))
  }

  /** Rounds until the head no longer rises; leaves the visitor where the condition was tested. */
  function VisitRounds<A(==,!new)>(an: Analysis<A>, s: Stmt, head: Env<A>): Env<A>
    requires FiniteHeight(an) && s.For?
    decreases s, 0, 1 + Slack(an, head.cur)
  {
    var e := VisitRound(an, s, head);
    var next := Merge(an, e.cur, head.cur);
    if next == head.cur then Env(VisitSimple(an, s.condition, head).cur, e.globals)
    else
      MergeRises(an, e.cur, head.cur);
      VisitRounds(an, s, Env(next, e.globals))
  }

  // ---------------------------------------------------------------- the visitors

  class SharedGlobals<A> {
    var table: Globals<A>

    constructor ()
      ensures table == map[]
    {
      table := map[];
    }
  }

  class ControlFlowVisitor<A(==,!new)> {
    const an: Analysis<A>
    const globals: SharedGlobals<A>
    var state: Flow<A>

    constructor (an: Analysis<A>, globals: SharedGlobals<A>, state: Flow<A>)
      ensures this.an == an && this.globals == globals && this.state == state
    {
      this.an := an;
      this.globals := globals;
      this.state := state;
    }

    function Now(): Env<A>
      reads this, globals
    {
      Env(state, globals.table)
    }

    method FlowClone() returns (c: ControlFlowVisitor<A>)
      ensures fresh(c) && c.an == an && c.globals == globals && c.state == state
    {
      c := new ControlFlowVisitor(an, globals, state);
    }

    method FlowMerge(other: ControlFlowVisitor<A>)
      modifies this
      ensures state == Merge(an, old(state), old(other.state))
    {
      state := Merge(an, state, other.state);
    }

    method FlowCopy(other: ControlFlowVisitor<A>)
      modifies this
      ensures state == old(other.state)
    {
      state := other.state;
    }

    method SetUnreachable()
      modifies this
      ensures state == old(state).(unreachable := true)
    {
      state := state.(unreachable := true);
    }

    method FlowMergeGlobalTo(key: string)
      modifies globals
      ensures Now() == MergeGlobalTo(an, old(Now()), key)
    {
      if key in globals.table {
        globals.table := globals.table[key := Merge(an, globals.table[key], state)];
      } else {
        globals.table := globals.table[key := state];
      }
    }

    method FlowMergeGlobalFrom(key: string)
      modifies this
      ensures Now() == MergeGlobalFrom(an, old(Now()), key)
    {
      if key in globals.table {
        state := Merge(an, state, globals.table[key]);
      }
    }

    method SaveGlobal(key: string) returns (saved: Option<Flow<A>>)
      modifies globals
      ensures saved == if key in old(globals.table) then Some(old(globals.table)[key]) else None
      ensures globals.table == old(globals.table) - {key}
    {
      saved := if key in globals.table then Some(globals.table[key]) else None;
      globals.table := globals.table - {key};
    }

    method RestoreGlobal(key: string, saved: Option<Flow<A>>)
      modifies globals
      ensures globals.table == var erased := old(globals.table) - {key};
                               if saved.Some? then erased[key := saved.value] else erased
    {
      globals.table := globals.table - {key};
      if saved.Some? {
        globals.table := globals.table[key := saved.value];
      }
    }

    method DoSimple(id: nat)
      modifies this
      ensures Now() == VisitSimple(an, id, old(Now()))
    {
      state := state.(facts := an.transfer(id, state.facts));
    }

    method DoSimples(ids: seq<nat>)
      modifies this
      ensures Now() == VisitSimples(an, ids, old(Now()))
    {
      for i := 0 to |ids|
        invariant VisitSimples(an, ids, old(Now())) == VisitSimples(an, ids[i..], Now())
      {
        DoSimple(ids[i]);
        assert ids[i..][1..] == ids[i + 1..];
      }
    }

    method DoVisit(s: Stmt)
      requires FiniteHeight(an)
      modifies this, globals
      ensures Now() == Visit(an, s, old(Now()))
      decreases s, 1
    {
      match s {
        case Simple(id) => DoSimple(id);
        case Block(components) =>
          for i := 0 to |components|
            invariant VisitSeq(an, components, old(Now())) == VisitSeq(an, components[i..], Now())
          {
            DoVisit(components[i]);
            assert components[i..][1..] == components[i + 1..];
          }
        case If(condition, t, f) =>
          DoSimple(condition);
          var other := FlowClone();
          DoVisit(t);
          if f.Some? {
            other.DoVisit(f.value);
          }
          FlowMerge(other);
        case For(_, _, _, _) => DoFor(s);
        case Break =>
          FlowMergeGlobalTo(BREAK);
          SetUnreachable();
        case Continue =>
          FlowMergeGlobalTo(CONTINUE);
          SetUnreachable();
      }
    }

    method DoFor(s: Stmt)
      requires FiniteHeight(an) && s.For?
      modifies this, globals
      ensures Now() == Visit(an, s, old(Now()))
      decreases s, 0
    {
      DoSimples(s.init);
      ghost var e1 := Now();
      var savedBreak := SaveGlobal(BREAK);
      var savedContinue := SaveGlobal(CONTINUE);
      assert globals.table == e1.globals - {BREAK, CONTINUE};
      ghost var start := Now();
      while true
        invariant VisitRounds(an, s, start) == VisitRounds(an, s, Now())
        decreases Slack(an, state)
      {
        ghost var head := Now();
        var top := FlowClone();
        DoSimple(s.condition);
        var inloop := FlowClone();
        inloop.DoVisit(s.body);
        inloop.FlowMergeGlobalFrom(CONTINUE);
        inloop.DoSimples(s.updates);
        assert inloop.Now() == VisitRound(an, s, head);
        inloop.FlowMerge(top);
        if inloop.state == top.state { break; }
        MergeRises(an, VisitRound(an, s, head).cur, head.cur);
        FlowCopy(inloop);
      }
      assert Now() == VisitRounds(an, s, start);
      FlowMergeGlobalFrom(BREAK);
      RestoreGlobal(CONTINUE, savedContinue);
      RestoreGlobal(BREAK, savedBreak);
    }
  }
}
