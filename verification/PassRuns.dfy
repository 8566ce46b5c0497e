/** What every run of a pass manager keeps. */
module PassRuns {
  import opened Wrappers
  import opened PassManagement

  /** The most recent invocation of pass `k`. */
  function Latest<P, T>(log: seq<Event<P, T>>, k: nat): (r: Option<Event<P, T>>)
    ensures r.Some? ==> r.value.Ran? && r.value.pass == k
  {
    if log == [] then None
    else
      var last := log[|log| - 1];
      if last.Ran? && last.pass == k then Some(last) else Latest(log[..|log| - 1], k)
  }

  /** The current program is made by the latest invocations of the passes before `it`, each fed with
      the output of the one before, the first with the start of the lineage. */
  ghost predicate StraightLine<P, T>(s: State<P, T>) {
    forall k: nat | k < |s.lineage| - 1 ::
      Latest(s.log, k) == Some(Ran(k, s.lineage[k], Returned(Some(s.lineage[k + 1]), false)))
  }

  /** `e` may come right after `log`, and is what the pass does: the next pass on the output of the one before; a lower pass
      being offered the trigger, none that could catch it being passed over; or the accepting pass
      again, on the input it had. */
  ghost predicate Follows<P, T>(ps: Passes<P, T>, original: P, log: seq<Event<P, T>>, e: Event<P, T>) {
    match e
    case Ran(k, input, outcome) => MayRun(original, log, k, input) && outcome == ps.run(log, k, input)
    case Offered(k, trig, accepted) =>
      log != [] && accepted == ps.accepts(log, k, trig) &&
      match log[|log| - 1]
      case Ran(j, _, outcome) => outcome == Triggered(trig) && IsNearestBelow(ps, k, j)
      case Offered(j, t, before) => t == trig && !before && IsNearestBelow(ps, k, j)
  }

  ghost predicate MayRun<P, T>(original: P, log: seq<Event<P, T>>, k: nat, input: P) {
    if log == [] then k == 0 && input == original
    else
      match log[|log| - 1]
      case Ran(j, _, outcome) => k == j + 1 && outcome == Returned(Some(input), false)
      case Offered(j, _, accepted) =>
        accepted && k == j && Latest(log, j).Some? && Latest(log, j).value.input == input
  }

  ghost predicate IsNearestBelow<P, T>(ps: Passes<P, T>, k: nat, j: nat) {
    k < j && ps.backtracks(k) && NoneBetween(ps, k, j)
  }

  ghost predicate LogOk<P, T>(ps: Passes<P, T>, original: P, log: seq<Event<P, T>>) {
    log == [] || (var n := |log| - 1; LogOk(ps, original, log[..n]) && Follows(ps, original, log[..n], log[n]))
  }

  lemma LogGrows<P, T>(ps: Passes<P, T>, original: P, log: seq<Event<P, T>>, e: Event<P, T>)
    requires LogOk(ps, original, log) && Follows(ps, original, log, e)
    ensures LogOk(ps, original, log + [e])
    ensures forall k: nat :: Latest(log + [e], k) == if e.Ran? && e.pass == k then Some(e) else Latest(log, k)
  {
    assert (log + [e])[..|log|] == log;
  }

  /** Where the log stands: ready to run the pass at the end of the lineage, or ended for good. */
  ghost predicate Consistent<P, T>(ps: Passes<P, T>, original: P, s: State<P, T>)
    requires 0 < |s.lineage|
  {
    var it := |s.lineage| - 1;
    && s.lineage[0] == original && LogOk(ps, original, s.log) && StraightLine(s)
    && match s.status
       case Running => MayRun(original, s.log, it, s.lineage[it])
       case Finished(result) =>
         || (it >= ps.count && result == Some(s.lineage[it]))
         || (exists stop :: (stop || result.None?) &&
               Latest(s.log, it) == Some(Ran(it, s.lineage[it], Returned(result, stop))))
       case Rethrown(trig) => s.log != [] && Refused(ps, s.log[|s.log| - 1], trig)
  }

  /** After `e` there is nobody left to offer the trigger to. */
  ghost predicate Refused<P, T>(ps: Passes<P, T>, e: Event<P, T>, trig: T) {
    && NoneBetween(ps, -1, e.pass)
    && (e.Ran? ==> e.outcome == Triggered(trig))
    && (e.Offered? ==> e.trig == trig && !e.accepted)
  }

  /** Pass `j` was the last to be heard, and leaves the trigger to those below. */
  ghost predicate Unhandled<P, T>(log: seq<Event<P, T>>, j: nat, trig: T) {
    log != [] &&
    match log[|log| - 1]
    case Ran(pass, _, outcome) => pass == j && outcome == Triggered(trig)
    case Offered(pass, t, accepted) => pass == j && t == trig && !accepted
  }

  ghost predicate SameRuns<P, T>(log: seq<Event<P, T>>, log2: seq<Event<P, T>>) {
    forall m: nat :: Latest(log2, m) == Latest(log, m)
  }

  lemma SameRunsTwice<P, T>(a: seq<Event<P, T>>, b: seq<Event<P, T>>, c: seq<Event<P, T>>)
    requires SameRuns(a, b) && SameRuns(b, c)
    ensures SameRuns(a, c)
  {
  }

  lemma OfferOnce<P, T>(ps: Passes<P, T>, original: P, k: nat, j: nat, trig: T, log: seq<Event<P, T>>, accepted: bool)
    requires LogOk(ps, original, log) && Unhandled(log, j, trig) && IsNearestBelow(ps, k, j)
    requires accepted == ps.accepts(log, k, trig)
    ensures var log1 := log + [Offered(k, trig, accepted)];
            LogOk(ps, original, log1) && SameRuns(log, log1) && (!accepted ==> Unhandled(log1, k, trig))
  {
    LogGrows(ps, original, log, Offered(k, trig, accepted));
  }

  lemma NobodyLeft<P, T>(ps: Passes<P, T>, j: nat, trig: T, log: seq<Event<P, T>>)
    requires NoneBetween(ps, -1, j) && Unhandled(log, j, trig)
    ensures Refused(ps, log[|log| - 1], trig)
  {
  }

  lemma NoneFurther<P, T>(ps: Passes<P, T>, k: nat, j: nat)
    requires NoneBetween(ps, k, j) && !ps.backtracks(k)
    ensures NoneBetween(ps, k as int - 1, j)
  {
  }

  /** What the search leaves: a log in order, and a handler or nobody to ask. */
  ghost predicate Searched<P, T>(ps: Passes<P, T>, original: P, trig: T, log: seq<Event<P, T>>, r: (seq<Event<P, T>>, Option<nat>)) {
    && LogOk(ps, original, r.0) && r.0 != [] && SameRuns(log, r.0)
    && (r.1.Some? ==> r.0[|r.0| - 1] == Offered(r.1.value, trig, true))
    && (r.1.None? ==> Refused(ps, r.0[|r.0| - 1], trig))
  }

  /** The search for a handler: its log is in order, and what it leaves is a state to go on from. */
  lemma {:induction false} OfferBelowOk<P, T>(ps: Passes<P, T>, original: P, k: nat, j: nat, trig: T, log: seq<Event<P, T>>)
    requires LogOk(ps, original, log) && k <= j && NoneBetween(ps, k as int - 1, j) && Unhandled(log, j, trig)
    ensures Searched(ps, original, trig, log, OfferBelow(ps, k, trig, log))
    decreases k
  {
    if k == 0 {
      NobodyLeft(ps, j, trig, log);
    } else if !ps.backtracks(k - 1) {
      NoneFurther(ps, k - 1, j);
      OfferBelowOk(ps, original, k - 1, j, trig, log);
    } else {
      var accepted := ps.accepts(log, k - 1, trig);
      var log1 := log + [Offered(k - 1, trig, accepted)];
      OfferOnce(ps, original, k - 1, j, trig, log, accepted);
      if !accepted {
        OfferBelowOk(ps, original, k - 1, k - 1, trig, log1);
        SameRunsTwice(log, log1, OfferBelow(ps, k - 1, trig, log1).0);
      }
    }
  }

  lemma StepConsistent<P, T>(ps: Passes<P, T>, original: P, s: State<P, T>)
    requires 0 < |s.lineage| && Consistent(ps, original, s)
    ensures Consistent(ps, original, Step(ps, s))
  {
    var it := |s.lineage| - 1;
    if s.status.Running? && it < ps.count {
      match ps.run(s.log, it, s.lineage[it])
      case Returned(p, stop) => ReturnConsistent(ps, original, s, p, stop);
      case Triggered(trig) => TriggerConsistent(ps, original, s, trig);
    }
  }

  lemma ReturnConsistent<P, T>(ps: Passes<P, T>, original: P, s: State<P, T>, p: Option<P>, stop: bool)
    requires 0 < |s.lineage| <= ps.count && s.status.Running? && Consistent(ps, original, s)
    requires ps.run(s.log, |s.lineage| - 1, s.lineage[|s.lineage| - 1]) == Returned(p, stop)
    ensures Consistent(ps, original, Step(ps, s))
  {
    var it := |s.lineage| - 1;
    var e := Ran(it, s.lineage[it], Returned(p, stop));
    LogGrows(ps, original, s.log, e);
    assert StraightLine(State(s.lineage, s.log + [e], Finished(p)));
    if stop || p.None? {
      assert Latest(s.log + [e], it) == Some(e);
      assert Step(ps, s) == State(s.lineage, s.log + [e], Finished(p));
    } else {
      assert Step(ps, s) == State(s.lineage + [p.value], s.log + [e], Running);
      assert StraightLine(Step(ps, s));
    }
  }

  lemma TriggerConsistent<P, T>(ps: Passes<P, T>, original: P, s: State<P, T>, trig: T)
    requires 0 < |s.lineage| <= ps.count && s.status.Running? && Consistent(ps, original, s)
    requires ps.run(s.log, |s.lineage| - 1, s.lineage[|s.lineage| - 1]) == Triggered(trig)
    ensures Consistent(ps, original, Step(ps, s))
  {
    var it := |s.lineage| - 1;
    var e := Ran(it, s.lineage[it], Triggered(trig));
    var log1 := s.log + [e];
    LogGrows(ps, original, s.log, e);
    OfferBelowOk(ps, original, it, it, trig, log1);
    var (log2, handler) := OfferBelow(ps, it, trig, log1);
    if handler.Some? {
      BackConsistent(ps, original, s, log2, handler.value, trig);
    } else {
      RethrowConsistent(ps, original, s, log2, trig);
    }
    StepTriggered(ps, s, trig);
  }

  lemma RethrowConsistent<P, T>(ps: Passes<P, T>, original: P, s: State<P, T>, log: seq<Event<P, T>>, trig: T)
    requires 0 < |s.lineage| && s.lineage[0] == original && StraightLine(s)
    requires LogOk(ps, original, log) && log != [] && Refused(ps, log[|log| - 1], trig)
    requires forall k: nat | k < |s.lineage| - 1 :: Latest(log, k) == Latest(s.log, k)
    ensures Consistent(ps, original, State(s.lineage, log, Rethrown(trig)))
  {
    assert StraightLine(State(s.lineage, log, Rethrown(trig)));
  }

  lemma StepTriggered<P, T>(ps: Passes<P, T>, s: State<P, T>, trig: T)
    requires 0 < |s.lineage| <= ps.count && s.status.Running?
    requires ps.run(s.log, |s.lineage| - 1, s.lineage[|s.lineage| - 1]) == Triggered(trig)
    ensures var it := |s.lineage| - 1;
            var (log, handler) := OfferBelow(ps, it, trig, s.log + [Ran(it, s.lineage[it], Triggered(trig))]);
            Step(ps, s) == if handler.Some? then State(s.lineage[..handler.value + 1], log, Running)
                           else State(s.lineage, log, Rethrown(trig))
  {
  }

  /** Going back to pass `j`: the inputs up to `j` still come from the latest invocations. */
  lemma BackConsistent<P, T>(ps: Passes<P, T>, original: P, s: State<P, T>, log: seq<Event<P, T>>, j: nat, trig: T)
    requires 0 < |s.lineage| && s.lineage[0] == original && StraightLine(s) && j < |s.lineage| - 1
    requires LogOk(ps, original, log) && log != [] && log[|log| - 1] == Offered(j, trig, true)
    requires forall k: nat | k <= j :: Latest(log, k) == Latest(s.log, k)
    ensures Consistent(ps, original, State(s.lineage[..j + 1], log, Running))
  {
    var back := State(s.lineage[..j + 1], log, Running);
    assert Latest(log, j) == Some(Ran(j, s.lineage[j], Returned(Some(s.lineage[j + 1]), false)));
    assert StraightLine(back);
  }

  /**
   Every run, of any length, whatever the passes do. Together with `PassManager.ApplyVisitor`: going
   back leaves no trace in the program; a trigger is offered to strictly earlier passes only, each
   at most once, nearest first; and a normal return yields the straight-line composition of the
   latest invocations, from the original program.
   */
  lemma {:induction false} EveryRunConsistent<P, T>(ps: Passes<P, T>, original: P, n: nat)
    ensures Consistent(ps, original, Steps(ps, Start(original), n))
    decreases n
  {
    if n > 0 {
      EveryRunConsistent(ps, original, n - 1);
      StepConsistent(ps, original, Steps(ps, Start(original), n - 1));
    }
  }

  /** Offers of one trigger go strictly down, so no pass gets the same trigger twice. */
  lemma {:induction false} OffersGoDown<P, T>(ps: Passes<P, T>, original: P, log: seq<Event<P, T>>, i: nat, j: nat)
    requires LogOk(ps, original, log) && i < j < |log|
    requires forall m | i < m <= j :: log[m].Offered?
    ensures log[j].pass < log[i].pass
    ensures log[i].Ran? ==> log[i].outcome == Triggered(log[j].trig)
    ensures log[i].Offered? ==> log[i].trig == log[j].trig && !log[i].accepted
    decreases |log|
  {
    var n := |log| - 1;
    var rest := log[..n];
    if j < n {
      OffersGoDown(ps, original, rest, i, j);
    } else if i < j - 1 {
      OffersGoDown(ps, original, rest, i, j - 1);
    }
  }

  /** A run that ends normally has run every pass of its lineage, or stopped at the last of them. */
  lemma NormalReturnIsComposition<P, T>(ps: Passes<P, T>, original: P, n: nat)
    ensures var s := Steps(ps, Start(original), n);
            s.status.Finished? ==>
              && s.lineage[0] == original
              && (forall k: nat | k < |s.lineage| - 1 ::
                    Latest(s.log, k) == Some(Ran(k, s.lineage[k], Returned(Some(s.lineage[k + 1]), false))))
              && ((s.status.result == Some(s.lineage[|s.lineage| - 1]) && |s.lineage| > ps.count)
                  || exists stop :: (stop || s.status.result.None?) &&
                       Latest(s.log, |s.lineage| - 1) ==
                         Some(Ran(|s.lineage| - 1, s.lineage[|s.lineage| - 1], Returned(s.status.result, stop))))
  {
    EveryRunConsistent(ps, original, n);
  }

  // ---------------------------------------------------------------- how long runs take

  function IsAccepted<P, T>(e: Event<P, T>): nat {
    if e.Offered? && e.accepted then 1 else 0
  }

  /** How often a trigger has been accepted. */
  function Acceptances<P, T>(log: seq<Event<P, T>>): nat {
    if log == [] then 0 else Acceptances(log[..|log| - 1]) + IsAccepted(log[|log| - 1])
  }

  lemma AcceptancesNext<P, T>(log: seq<Event<P, T>>, e: Event<P, T>)
    ensures Acceptances(log + [e]) == Acceptances(log) + IsAccepted(e)
  {
    assert (log + [e])[..|log|] == log;
  }

  lemma {:induction false} OffersCount<P, T>(ps: Passes<P, T>, k: nat, trig: T, log: seq<Event<P, T>>)
    ensures var (log2, handler) := OfferBelow(ps, k, trig, log);
            Acceptances(log2) == Acceptances(log) + if handler.Some? then 1 else 0
    decreases k
  {
    if k > 0 {
      if ps.backtracks(k - 1) {
        var e := Offered(k - 1, trig, ps.accepts(log, k - 1, trig));
        AcceptancesNext(log, e);
        OffersCount(ps, k - 1, trig, log + [e]);
      } else {
        OffersCount(ps, k - 1, trig, log);
      }
    }
  }

  /** A turn of a run that goes on either runs the next pass or goes back on account of a trigger that is
      accepted. */
  lemma TurnGoesOn<P, T>(ps: Passes<P, T>, s: State<P, T>)
    requires 0 < |s.lineage| && s.status.Running? && Step(ps, s).status.Running?
    ensures var t := Step(ps, s);
            && |s.lineage| <= ps.count
            && if Acceptances(t.log) == Acceptances(s.log) then |t.lineage| == |s.lineage| + 1
               else Acceptances(t.log) == Acceptances(s.log) + 1 && |t.lineage| < |s.lineage|
  {
    var it := |s.lineage| - 1;
    var outcome := ps.run(s.log, it, s.lineage[it]);
    var e := Ran(it, s.lineage[it], outcome);
    AcceptancesNext(s.log, e);
    if outcome.Triggered? { OffersCount(ps, it, outcome.trig, s.log + [e]); }
  }

  lemma OnceMore(n: nat, m: nat)
    ensures n * (m + 1) == n * m + n
  {
  }

  /** So a run goes on for ever only if triggers are accepted for ever. */
  lemma {:induction false} RunsAreBounded<P, T>(ps: Passes<P, T>, original: P, n: nat)
    ensures var s := Steps(ps, Start(original), n);
            s.status.Running? ==> n <= ps.count * Acceptances(s.log) + |s.lineage| - 1 && |s.lineage| <= ps.count + 1
    decreases n
  {
    if n > 0 && Steps(ps, Start(original), n).status.Running? {
      RunsAreBounded(ps, original, n - 1);
      var s := Steps(ps, Start(original), n - 1);
      TurnGoesOn(ps, s);
      OnceMore(ps.count, Acceptances(s.log));
    }
  }

  /** So a run in which no more than `m` triggers are accepted is over after count * (m + 1) + 1 turns. */
  lemma RunsEnd<P, T>(ps: Passes<P, T>, original: P, m: nat, n: nat)
    requires Acceptances(Steps(ps, Start(original), n).log) <= m && n > ps.count * (m + 1)
    ensures !Steps(ps, Start(original), n).status.Running?
  {
    RunsAreBounded(ps, original, n);
    OnceMore(ps.count, m);
    TimesMonotone(ps.count, Acceptances(Steps(ps, Start(original), n).log), m);
  }

  lemma TimesMonotone(n: nat, a: nat, b: nat)
    requires a <= b
    ensures n * a <= n * b
  {
    assert n * b == n * a + n * (b - a);
  }

  /** Passes that all return something, and do not ask to stop. */
  ghost predicate AllReturn<P(!new), T(!new)>(ps: Passes<P, T>) {
    forall log, k, p :: ps.run(log, k, p).Returned? && ps.run(log, k, p).program.Some? && !ps.run(log, k, p).stop
  }

  /** The program behind the first `k` passes, if they are run one after the other. */
  function Composed<P, T>(ps: Passes<P, T>, original: P, k: nat): (seq<Event<P, T>>, P) {
    if k == 0 then ([], original)
    else
      var (log, p) := Composed(ps, original, k - 1);
      var outcome := ps.run(log, k - 1, p);
      (log + [Ran(k - 1, p, outcome)], if outcome.Returned? && outcome.program.Some? then outcome.program.value else p)
  }

  /** Such a run comes to its end after one turn for each pass, with what the passes make of the original
      in their order. */
  lemma {:induction false} StraightRun<P(!new), T(!new)>(ps: Passes<P, T>, original: P, k: nat)
    requires AllReturn(ps) && k <= ps.count
    ensures var s := Steps(ps, Start(original), k);
            s.status.Running? && |s.lineage| == k + 1 && (s.log, s.lineage[k]) == Composed(ps, original, k)
    decreases k
  {
    if k > 0 { StraightRun(ps, original, k - 1); }
  }

  lemma AllReturnFinishes<P(!new), T(!new)>(ps: Passes<P, T>, original: P)
    requires AllReturn(ps)
    ensures Steps(ps, Start(original), ps.count + 1).status == Finished(Some(Composed(ps, original, ps.count).1))
    ensures Steps(ps, Start(original), ps.count + 1).log == Composed(ps, original, ps.count).0
  {
    StraightRun(ps, original, ps.count);
  }
}
