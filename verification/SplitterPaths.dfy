/** The promise of ir/splitter.h that on every path all statements up to the first match are in
    `before`: what it means, and exactly when the code keeps it. */
module SplitterPaths {
  import opened Wrappers
  import opened Splitter
  import opened SplitterMeaning
  import opened SplitterStructure
  import opened SplitterPreserves

  // ---------------------------------------------------------------- running up to the first match

  /** A run that stops when it comes to a match, and whether it did. */
  datatype Approach = Approach(store: Store, trace: seq<Event>, reached: bool)

  function NotReached(r: Run): Approach {
    Approach(r.store, r.trace, false)
  }

  function ThenApproach(trace: seq<Event>, a: Approach): Approach {
    a.(trace := trace + a.trace)
  }

  function Until(w: World, cfg: Config, s: Stmt, store: Store): Approach
    decreases s, 1
  {
    if MatchesRoot(cfg, s) then Approach(store, [], true)
    else
      match s
      case Block(_, components) => UntilSeq(w, cfg, components, store)
      case If(_, e, t, f) =>
        var r := Evaluate(w, e, store);
        if ValueOf(w, e, store) != 0 then ThenApproach(r.trace, Until(w, cfg, t, r.store))
        else if f.Some? then ThenApproach(r.trace, Until(w, cfg, f.value, r.store))
        else NotReached(r)
      case Switch(_, e, cases) =>
        var r := Evaluate(w, e, store);
        ThenApproach(r.trace, UntilCases(w, cfg, cases, Chosen(Labels(cases), ValueOf(w, e, store)), r.store))
      case _ => NotReached(Exec(w, s, store))
  }

  function UntilSeq(w: World, cfg: Config, ss: seq<Stmt>, store: Store): Approach
    decreases ss, 0
  {
    if ss == [] then Approach(store, [], false)
    else
      var a := Until(w, cfg, ss[0], store);
      if a.reached then a else ThenApproach(a.trace, UntilSeq(w, cfg, ss[1..], a.store))
  }

  function UntilCases(w: World, cfg: Config, cases: seq<Case>, i: nat, store: Store): Approach
    decreases cases, 0
  {
    if cases == [] then Approach(store, [], false)
    else if i > 0 then UntilCases(w, cfg, cases[1..], i - 1, store)
    else if cases[0].body.Some? then
      assert cases[0].body.value < cases[0];
      Until(w, cfg, cases[0].body.value, store)
    else UntilCases(w, cfg, cases[1..], 0, store)
  }

  lemma {:induction false} NothingToReach(w: World, cfg: Config, s: Stmt, store: Store)
    requires !Contains(cfg, s)
    ensures Until(w, cfg, s, store) == NotReached(Exec(w, s, store))
    decreases s, 1
  {
    match s
    case Block(_, components) => NothingToReachSeq(w, cfg, components, store);
    case If(_, e, t, f) =>
      var r := Evaluate(w, e, store);
      NothingToReach(w, cfg, t, r.store);
      if f.Some? { NothingToReach(w, cfg, f.value, r.store); }
    case Switch(_, e, cases) =>
      NothingToReachCases(w, cfg, cases, Chosen(Labels(cases), ValueOf(w, e, store)), Evaluate(w, e, store).store);
    case _ =>
  }

  lemma {:induction false} NothingToReachSeq(w: World, cfg: Config, ss: seq<Stmt>, store: Store)
    requires !ContainsSeq(cfg, ss)
    ensures UntilSeq(w, cfg, ss, store) == NotReached(ExecSeq(w, ss, store))
    decreases ss, 0
  {
    if ss != [] {
      NothingToReach(w, cfg, ss[0], store);
      NothingToReachSeq(w, cfg, ss[1..], Exec(w, ss[0], store).store);
    }
  }

  lemma {:induction false} NothingToReachCases(w: World, cfg: Config, cases: seq<Case>, i: nat, store: Store)
    requires !ContainsCases(cfg, cases)
    ensures UntilCases(w, cfg, cases, i, store) == NotReached(ExecCases(w, cases, i, store))
    decreases cases, 0
  {
    if cases != [] {
      if cases[0].body.Some? {
        assert cases[0].body.value < cases[0];
        NothingToReach(w, cfg, cases[0].body.value, store);
      }
      NothingToReachCases(w, cfg, cases[1..], if i > 0 then i - 1 else 0, store);
    }
  }

  lemma {:induction false} UntilSeqAppend(w: World, cfg: Config, a: seq<Stmt>, b: seq<Stmt>, store: Store)
    ensures var first := UntilSeq(w, cfg, a, store);
            UntilSeq(w, cfg, a + b, store) ==
              if first.reached then first else ThenApproach(first.trace, UntilSeq(w, cfg, b, first.store))
    decreases |a|
  {
    if a == [] {
      assert a + b == b && [] + UntilSeq(w, cfg, b, store).trace == UntilSeq(w, cfg, b, store).trace;
    } else {
      var x := Until(w, cfg, a[0], store);
      assert (a + b)[0] == a[0] && (a + b)[1..] == a[1..] + b;
      if !x.reached {
        UntilSeqAppend(w, cfg, a[1..], b, x.store);
        var y := UntilSeq(w, cfg, a[1..], x.store);
        assert x.trace + (y.trace + UntilSeq(w, cfg, b, y.store).trace) == x.trace + y.trace + UntilSeq(w, cfg, b, y.store).trace;
      }
    }
  }

  /** Running to the cut and then on to the first match in what remains is running to the first
      match of the whole. */
  lemma {:induction false} CutThenUntil(w: World, cfg: Config, s: Stmt, store: Store)
    ensures var c := Cut(w, cfg, s, store);
            Until(w, cfg, s, store) == ThenApproach(c.trace, UntilSeq(w, cfg, c.rest, c.store))
    decreases s, 1
  {
    var c := Cut(w, cfg, s, store);
    if !Contains(cfg, s) {
      NothingToReach(w, cfg, s, store);
      assert c.trace + [] == c.trace;
    } else if cfg.matches(s) {
      assert UntilSeq(w, cfg, [s], store) == Until(w, cfg, s, store);
    } else {
      match s
      case Block(_, components) => CutSeqThenUntil(w, cfg, components, store);
      case If(_, e, t, f) =>
        var r := Evaluate(w, e, store);
        if ValueOf(w, e, store) != 0 {
          CutThenUntil(w, cfg, t, r.store);
          JoinTraces(r.trace, Cut(w, cfg, t, r.store), w, cfg);
        } else if f.Some? {
          CutThenUntil(w, cfg, f.value, r.store);
          JoinTraces(r.trace, Cut(w, cfg, f.value, r.store), w, cfg);
        } else {
          assert r.trace + [] == r.trace;
        }
      case Switch(_, e, cases) =>
        var r := Evaluate(w, e, store);
        var i := Chosen(Labels(cases), ValueOf(w, e, store));
        CutCasesThenUntil(w, cfg, cases, i, r.store);
        JoinTraces(r.trace, CutCases(w, cfg, cases, i, r.store), w, cfg);
    }
  }

  lemma JoinTraces(before: seq<Event>, c: CutRun, w: World, cfg: Config)
    ensures var a := UntilSeq(w, cfg, c.rest, c.store);
            ThenApproach(before, ThenApproach(c.trace, a)) == ThenApproach(before + c.trace, a)
  {
    ThenTwice(before, c.trace, UntilSeq(w, cfg, c.rest, c.store));
  }

  lemma {:induction false} CutSeqThenUntil(w: World, cfg: Config, ss: seq<Stmt>, store: Store)
    ensures var c := CutSeq(w, cfg, ss, store);
            UntilSeq(w, cfg, ss, store) == ThenApproach(c.trace, UntilSeq(w, cfg, c.rest, c.store))
    decreases ss, 0
  {
    if ss != [] {
      if Contains(cfg, ss[0]) {
        CutThenUntil(w, cfg, ss[0], store);
        FirstThenUntil(w, cfg, ss, store);
      } else {
        NothingToReach(w, cfg, ss[0], store);
        var r := Exec(w, ss[0], store);
        CutSeqThenUntil(w, cfg, ss[1..], r.store);
        JoinTraces(r.trace, CutSeq(w, cfg, ss[1..], r.store), w, cfg);
      }
    }
  }

  lemma FirstThenUntil(w: World, cfg: Config, ss: seq<Stmt>, store: Store)
    requires ss != [] && Contains(cfg, ss[0])
    requires var c := Cut(w, cfg, ss[0], store);
             Until(w, cfg, ss[0], store) == ThenApproach(c.trace, UntilSeq(w, cfg, c.rest, c.store))
    ensures var c := CutSeq(w, cfg, ss, store);
            UntilSeq(w, cfg, ss, store) == ThenApproach(c.trace, UntilSeq(w, cfg, c.rest, c.store))
  {
    var c := Cut(w, cfg, ss[0], store);
    var first := UntilSeq(w, cfg, c.rest, c.store);
    UntilSeqAppend(w, cfg, c.rest, ss[1..], c.store);
    if !first.reached { ThenTwice(c.trace, first.trace, UntilSeq(w, cfg, ss[1..], first.store)); }
  }

  lemma ThenTwice(a: seq<Event>, b: seq<Event>, c: Approach)
    ensures ThenApproach(a, ThenApproach(b, c)) == ThenApproach(a + b, c)
  {
    assert a + (b + c.trace) == a + b + c.trace;
  }

  lemma {:induction false} CutCasesThenUntil(w: World, cfg: Config, cases: seq<Case>, i: nat, store: Store)
    ensures var c := CutCases(w, cfg, cases, i, store);
            UntilCases(w, cfg, cases, i, store) == ThenApproach(c.trace, UntilSeq(w, cfg, c.rest, c.store))
    decreases cases, 0
  {
    if cases == [] {
    } else if i > 0 {
      CutCasesThenUntil(w, cfg, cases[1..], i - 1, store);
    } else if cases[0].body.Some? {
      assert cases[0].body.value < cases[0];
      CutThenUntil(w, cfg, cases[0].body.value, store);
    } else {
      CutCasesThenUntil(w, cfg, cases[1..], 0, store);
    }
  }

  // ---------------------------------------------------------------- how a statement begins

  /** Running a statement up to its first match: nothing happens at all, a match comes first, or
      something runs before any match. */
  datatype Head = Silent | Reaches | Noisy

  function HeadOf(cfg: Config, s: Stmt): Head
    decreases s, 1
  {
    if MatchesRoot(cfg, s) then Reaches
    else
      match s
      case Decl(_) => Silent
      case Block(_, components) => HeadSeq(cfg, components)
      case _ => Noisy
  }

  function HeadSeq(cfg: Config, ss: seq<Stmt>): Head
    decreases ss, 0
  {
    if ss == [] then Silent
    else
      var h := HeadOf(cfg, ss[0]);
      if h == Silent then HeadSeq(cfg, ss[1..]) else h
  }

  /** That is what statements do from any store, in any world. */
  lemma {:induction false} HeadTells(w: World, cfg: Config, s: Stmt, store: Store)
    requires IsSource(s)
    ensures var a := Until(w, cfg, s, store);
            match HeadOf(cfg, s)
            case Silent => a == Approach(store, [], false)
            case Reaches => a == Approach(store, [], true)
            case Noisy => a.trace != []
    decreases s, 1
  {
    if s.Block? { HeadSeqTells(w, cfg, s.components, store); }
  }

  lemma {:induction false} HeadSeqTells(w: World, cfg: Config, ss: seq<Stmt>, store: Store)
    requires IsSourceSeq(ss)
    ensures var a := UntilSeq(w, cfg, ss, store);
            match HeadSeq(cfg, ss)
            case Silent => a == Approach(store, [], false)
            case Reaches => a == Approach(store, [], true)
            case Noisy => a.trace != []
    decreases ss, 0
  {
    if ss != [] {
      HeadTells(w, cfg, ss[0], store);
      HeadSeqTells(w, cfg, ss[1..], store);
    }
  }

  lemma {:induction false} HeadSeqAppend(cfg: Config, a: seq<Stmt>, b: seq<Stmt>)
    ensures HeadSeq(cfg, a + b) == if HeadSeq(cfg, a) == Silent then HeadSeq(cfg, b) else HeadSeq(cfg, a)
    decreases |a|
  {
    if a == [] {
      assert a + b == b;
    } else {
      assert (a + b)[0] == a[0] && (a + b)[1..] == a[1..] + b;
      HeadSeqAppend(cfg, a[1..], b);
    }
  }

  // ---------------------------------------------------------------- how what remains may begin

  /** The values the type of each expression has. */
  type Domain = nat -> set<int>

  /** Expressions only take values their types have. */
  ghost predicate Typed(w: World, dom: Domain) {
    forall id: nat, store: Store :: w.value(id, store) in dom(id)
  }

  /** On some path through `s`, what remains after the cut begins in this way. */
  predicate MayBegin(cfg: Config, dom: Domain, s: Stmt, kind: Head)
    decreases s, 1
  {
    if !Contains(cfg, s) then kind == Silent
    else if cfg.matches(s) then kind == Reaches
    else
      match s
      case Block(_, components) => MayBeginSeq(cfg, dom, components, kind)
      case If(_, e, t, f) =>
        exists v <- DomainOf(dom, e) ::
          if v != 0 then MayBegin(cfg, dom, t, kind)
          else if f.Some? then MayBegin(cfg, dom, f.value, kind)
          else kind == Silent
      case Switch(_, e, cases) =>
        exists v <- DomainOf(dom, e) :: MayBeginCases(cfg, dom, cases, Chosen(Labels(cases), v), kind)
      case _ => false
  }

  predicate MayBeginSeq(cfg: Config, dom: Domain, ss: seq<Stmt>, kind: Head)
    decreases ss, 0
  {
    if ss == [] then kind == Silent
    else if !Contains(cfg, ss[0]) then MayBeginSeq(cfg, dom, ss[1..], kind)
    else
      || (kind != Silent && MayBegin(cfg, dom, ss[0], kind))
      || (MayBegin(cfg, dom, ss[0], Silent) && HeadSeq(cfg, ss[1..]) == kind)
  }

  /** When case `i` is chosen. */
  predicate MayBeginCases(cfg: Config, dom: Domain, cases: seq<Case>, i: nat, kind: Head)
    decreases cases, 0
  {
    if cases == [] then kind == Silent
    else if i > 0 then MayBeginCases(cfg, dom, cases[1..], i - 1, kind)
    else if cases[0].body.Some? then
      assert cases[0].body.value < cases[0];
      MayBegin(cfg, dom, cases[0].body.value, kind)
    else MayBeginCases(cfg, dom, cases[1..], 0, kind)
  }

  function DomainOf(dom: Domain, e: Expr): set<int> {
    match e
    case Original(id, _) => dom(id)
    case _ => {}
  }

  /** No run begins otherwise. */
  lemma {:induction false} BeginsAsSaid(cfg: Config, dom: Domain, w: World, s: Stmt, store: Store)
    requires Typed(w, dom) && IsSource(s)
    ensures MayBegin(cfg, dom, s, HeadSeq(cfg, Cut(w, cfg, s, store).rest))
    decreases s, 1
  {
    if Contains(cfg, s) && !cfg.matches(s) {
      match s
      case Block(_, components) => BeginsAsSaidSeq(cfg, dom, w, components, store);
      case If(_, e, t, f) =>
        var v, r := ValueOf(w, e, store), Evaluate(w, e, store);
        assert v in DomainOf(dom, e);
        if v != 0 {
          BeginsAsSaid(cfg, dom, w, t, r.store);
        } else if f.Some? {
          BeginsAsSaid(cfg, dom, w, f.value, r.store);
        }
      case Switch(_, e, cases) =>
        var v, r := ValueOf(w, e, store), Evaluate(w, e, store);
        assert v in DomainOf(dom, e);
        BeginsAsSaidCases(cfg, dom, w, cases, Chosen(Labels(cases), v), r.store);
      case _ =>
    }
  }

  lemma {:induction false} BeginsAsSaidSeq(cfg: Config, dom: Domain, w: World, ss: seq<Stmt>, store: Store)
    requires Typed(w, dom) && IsSourceSeq(ss)
    ensures MayBeginSeq(cfg, dom, ss, HeadSeq(cfg, CutSeq(w, cfg, ss, store).rest))
    decreases ss, 0
  {
    if ss != [] {
      BeginsAsSaid(cfg, dom, w, ss[0], store);
      HeadSeqAppend(cfg, Cut(w, cfg, ss[0], store).rest, ss[1..]);
      BeginsAsSaidSeq(cfg, dom, w, ss[1..], Exec(w, ss[0], store).store);
    }
  }

  lemma {:induction false} BeginsAsSaidCases(cfg: Config, dom: Domain, w: World, cases: seq<Case>, i: nat, store: Store)
    requires Typed(w, dom) && IsSourceCases(cases)
    ensures MayBeginCases(cfg, dom, cases, i, HeadSeq(cfg, CutCases(w, cfg, cases, i, store).rest))
    decreases cases, 0
  {
    if cases != [] {
      if cases[0].body.Some? {
        assert cases[0].body.value < cases[0];
        BeginsAsSaid(cfg, dom, w, cases[0].body.value, store);
      }
      BeginsAsSaidCases(cfg, dom, w, cases[1..], if i > 0 then i - 1 else 0, store);
    }
  }

  // ---------------------------------------------------------------- steering a run

  /** The values that expressions take, by how many were evaluated before. */
  type Plan = nat -> int

  /** A program variable that counts evaluations. */
  const Ticks := Source("")

  function Count(store: Store): nat {
    if Ticks in store && store[Ticks] >= 0 then store[Ticks] else 0
  }

  function Tick(store: Store): Store {
    store[Ticks := Count(store) + 1]
  }

  ghost function AnyOf(values: set<int>): (v: int)
    ensures values != {} ==> v in values
  {
    if v :| v in values then v
    else
      assert values == {};
      0
  }

  /** A world that follows the plan where the types allow it, and in which expressions do nothing but
      count. */
  ghost function Steered(dom: Domain, plan: Plan): World {
    World((id: nat, s: Store) => s,
          (id: nat, s: Store) => Allowed(dom(id), plan(Count(s))),
          (id: nat, s: Store) => Tick(s))
  }

  ghost function Allowed(values: set<int>, v: int): (r: int)
    ensures values != {} ==> r in values
  {
    if v in values then v else AnyOf(values)
  }

  ghost predicate Inhabited(dom: Domain) {
    forall id: nat :: dom(id) != {}
  }

  lemma SteeredIsLawful(dom: Domain, plan: Plan)
    requires Inhabited(dom)
    ensures Oblivious(Steered(dom, plan)) && Typed(Steered(dom, plan), dom)
  {
    var w := Steered(dom, plan);
    forall id: nat, s: Store, t: Store | SameSource(s, t)
      ensures SameSource(w.effect(id, s), w.effect(id, t)) && w.value(id, s) == w.value(id, t)
    {
      assert Lookup(s, Ticks) == Lookup(t, Ticks);
      assert Count(s) == Count(t);
    }
    forall id: nat, s: Store ensures w.value(id, s) in dom(id) {
      var values := dom(id);
      assert values != {};
      assert w.value(id, s) == Allowed(values, plan(Count(s)));
      assert Allowed(values, plan(Count(s))) in values;
    }
  }

  /** The plan says `values` from the `from`-th evaluation on. */
  ghost predicate Says(plan: Plan, from: nat, values: seq<int>) {
    forall j | 0 <= j < |values| :: plan(from + j) == values[j]
  }

  lemma SaysBoth(plan: Plan, from: nat, a: seq<int>, b: seq<int>)
    requires Says(plan, from, a + b)
    ensures Says(plan, from, a) && Says(plan, from + |a|, b)
  {
    forall j | 0 <= j < |a| ensures plan(from + j) == a[j] {
      assert (a + b)[j] == a[j];
    }
    forall j | 0 <= j < |b| ensures plan(from + |a| + j) == b[j] {
      assert (a + b)[|a| + j] == b[j];
    }
  }

  /** Following `values` leads to a cut that begins in this way. */
  ghost predicate Leads(cfg: Config, dom: Domain, s: Stmt, kind: Head, values: seq<int>) {
    forall plan: Plan, store: Store | Says(plan, Count(store), values) ::
      HeadSeq(cfg, Cut(Steered(dom, plan), cfg, s, store).rest) == kind
  }

  ghost predicate LeadsSeq(cfg: Config, dom: Domain, ss: seq<Stmt>, kind: Head, values: seq<int>) {
    forall plan: Plan, store: Store | Says(plan, Count(store), values) ::
      HeadSeq(cfg, CutSeq(Steered(dom, plan), cfg, ss, store).rest) == kind
  }

  ghost predicate LeadsCases(cfg: Config, dom: Domain, cases: seq<Case>, i: nat, kind: Head, values: seq<int>) {
    forall plan: Plan, store: Store | Says(plan, Count(store), values) ::
      HeadSeq(cfg, CutCases(Steered(dom, plan), cfg, cases, i, store).rest) == kind
  }

  /** Following `values` through all of `s` evaluates just as many expressions. */
  ghost predicate Takes(dom: Domain, s: Stmt, values: seq<int>) {
    forall plan: Plan, store: Store | Says(plan, Count(store), values) ::
      Count(Exec(Steered(dom, plan), s, store).store) == Count(store) + |values|
  }

  ghost predicate TakesSeq(dom: Domain, ss: seq<Stmt>, values: seq<int>) {
    forall plan: Plan, store: Store | Says(plan, Count(store), values) ::
      Count(ExecSeq(Steered(dom, plan), ss, store).store) == Count(store) + |values|
  }

  ghost predicate TakesCases(dom: Domain, cases: seq<Case>, i: nat, values: seq<int>) {
    forall plan: Plan, store: Store | Says(plan, Count(store), values) ::
      Count(ExecCases(Steered(dom, plan), cases, i, store).store) == Count(store) + |values|
  }

  lemma FirstStep(dom: Domain, plan: Plan, e: Expr, store: Store, v: int, values: seq<int>)
    requires e.Original? && v in DomainOf(dom, e) && Says(plan, Count(store), [v] + values)
    ensures var w := Steered(dom, plan);
            && ValueOf(w, e, store) == v && Evaluate(w, e, store).store == Tick(store)
            && Count(Tick(store)) == Count(store) + 1 && Says(plan, Count(Tick(store)), values)
  {
    SaysBoth(plan, Count(store), [v], values);
    assert plan(Count(store) + 0) == [v][0];
  }

  /** Some way through `s`. */
  lemma {:induction false} SomeWay(dom: Domain, s: Stmt) returns (values: seq<int>)
    requires Inhabited(dom) && IsSource(s)
    ensures Takes(dom, s, values)
    decreases s, 1
  {
    values := [];
    match s
    case Block(_, components) =>
      values := SomeWaySeq(dom, components);
      forall plan: Plan, store: Store | Says(plan, Count(store), values)
        ensures Count(Exec(Steered(dom, plan), s, store).store) == Count(store) + |values|
      {
        assert Exec(Steered(dom, plan), s, store) == ExecSeq(Steered(dom, plan), components, store);
      }
    case If(_, e, t, f) =>
      assert dom(e.id) != {};
      var v := AnyOf(DomainOf(dom, e));
      var more: seq<int> := [];
      if v != 0 { more := SomeWay(dom, t); } else if f.Some? { more := SomeWay(dom, f.value); }
      values := [v] + more;
      forall plan: Plan, store: Store | Says(plan, Count(store), values)
        ensures Count(Exec(Steered(dom, plan), s, store).store) == Count(store) + |values|
      {
        FirstStep(dom, plan, e, store, v, more);
      }
    case Switch(_, e, cases) =>
      assert dom(e.id) != {};
      var v := AnyOf(DomainOf(dom, e));
      var more := SomeWayCases(dom, cases, Chosen(Labels(cases), v));
      values := [v] + more;
      forall plan: Plan, store: Store | Says(plan, Count(store), values)
        ensures Count(Exec(Steered(dom, plan), s, store).store) == Count(store) + |values|
      {
        FirstStep(dom, plan, e, store, v, more);
      }
    case _ =>
  }

  lemma {:induction false} SomeWaySeq(dom: Domain, ss: seq<Stmt>) returns (values: seq<int>)
    requires Inhabited(dom) && IsSourceSeq(ss)
    ensures TakesSeq(dom, ss, values)
    decreases ss, 0
  {
    values := [];
    if ss != [] {
      var first := SomeWay(dom, ss[0]);
      var rest := SomeWaySeq(dom, ss[1..]);
      values := first + rest;
      forall plan: Plan, store: Store | Says(plan, Count(store), values)
        ensures Count(ExecSeq(Steered(dom, plan), ss, store).store) == Count(store) + |values|
      {
        SaysBoth(plan, Count(store), first, rest);
        var r := Exec(Steered(dom, plan), ss[0], store);
        assert Count(r.store) == Count(store) + |first|;
        assert Says(plan, Count(r.store), rest);
      }
    }
  }

  lemma {:induction false} SomeWayCases(dom: Domain, cases: seq<Case>, i: nat) returns (values: seq<int>)
    requires Inhabited(dom) && IsSourceCases(cases)
    ensures TakesCases(dom, cases, i, values)
    decreases cases, 0
  {
    values := [];
    if cases != [] {
      if i == 0 && cases[0].body.Some? {
        assert cases[0].body.value < cases[0];
        values := SomeWay(dom, cases[0].body.value);
        forall plan: Plan, store: Store | Says(plan, Count(store), values)
          ensures Count(ExecCases(Steered(dom, plan), cases, i, store).store) == Count(store) + |values|
        {
          assert ExecCases(Steered(dom, plan), cases, i, store) == Exec(Steered(dom, plan), cases[0].body.value, store);
        }
      } else {
        var next := if i > 0 then i - 1 else 0;
        values := SomeWayCases(dom, cases[1..], next);
        forall plan: Plan, store: Store | Says(plan, Count(store), values)
          ensures Count(ExecCases(Steered(dom, plan), cases, i, store).store) == Count(store) + |values|
        {
          assert ExecCases(Steered(dom, plan), cases, i, store) == ExecCases(Steered(dom, plan), cases[1..], next, store);
        }
      }
    }
  }

  /** Every way in which what remains may begin is met by some run. */
  lemma {:induction false} BeginsSomehow(cfg: Config, dom: Domain, s: Stmt, kind: Head) returns (values: seq<int>)
    requires Inhabited(dom) && IsSource(s) && MayBegin(cfg, dom, s, kind)
    ensures Leads(cfg, dom, s, kind, values)
    decreases s, 1
  {
    values := [];
    if Contains(cfg, s) && !cfg.matches(s) {
      match s
      case Block(_, components) =>
        values := BeginsSomehowSeq(cfg, dom, components, kind);
        forall plan: Plan, store: Store | Says(plan, Count(store), values)
          ensures HeadSeq(cfg, Cut(Steered(dom, plan), cfg, s, store).rest) == kind
        {
          assert Cut(Steered(dom, plan), cfg, s, store) == CutSeq(Steered(dom, plan), cfg, components, store);
        }
      case If(_, _, _, _) => values := BeginsSomehowIf(cfg, dom, s, kind);
      case Switch(_, _, _) => values := BeginsSomehowSwitch(cfg, dom, s, kind);
      case _ =>
    }
  }

  lemma {:induction false} BeginsSomehowIf(cfg: Config, dom: Domain, s: Stmt, kind: Head) returns (values: seq<int>)
    requires s.If? && Contains(cfg, s) && !cfg.matches(s)
    requires Inhabited(dom) && IsSource(s) && MayBegin(cfg, dom, s, kind)
    ensures Leads(cfg, dom, s, kind, values)
    decreases s, 0
  {
    var v :| v in DomainOf(dom, s.condition) &&
             if v != 0 then MayBegin(cfg, dom, s.ifTrue, kind)
             else if s.ifFalse.Some? then MayBegin(cfg, dom, s.ifFalse.value, kind)
             else kind == Silent;
    var branch := if v != 0 then Some(s.ifTrue) else s.ifFalse;
    var more: seq<int> := [];
    if branch.Some? { more := BeginsSomehow(cfg, dom, branch.value, kind); }
    values := [v] + more;
    forall plan: Plan, store: Store | Says(plan, Count(store), values)
      ensures HeadSeq(cfg, Cut(Steered(dom, plan), cfg, s, store).rest) == kind
    {
      FirstStep(dom, plan, s.condition, store, v, more);
      CutIf(Steered(dom, plan), cfg, s, store);
      if branch.Some? {
        assert HeadSeq(cfg, Cut(Steered(dom, plan), cfg, branch.value, Tick(store)).rest) == kind;
      }
    }
  }

  lemma {:induction false} BeginsSomehowSwitch(cfg: Config, dom: Domain, s: Stmt, kind: Head) returns (values: seq<int>)
    requires s.Switch? && Contains(cfg, s) && !cfg.matches(s)
    requires Inhabited(dom) && IsSource(s) && MayBegin(cfg, dom, s, kind)
    ensures Leads(cfg, dom, s, kind, values)
    decreases s, 0
  {
    var v :| v in DomainOf(dom, s.selector) && MayBeginCases(cfg, dom, s.cases, Chosen(Labels(s.cases), v), kind);
    var i := Chosen(Labels(s.cases), v);
    var more := BeginsSomehowCases(cfg, dom, s.cases, i, kind);
    values := [v] + more;
    forall plan: Plan, store: Store | Says(plan, Count(store), values)
      ensures HeadSeq(cfg, Cut(Steered(dom, plan), cfg, s, store).rest) == kind
    {
      FirstStep(dom, plan, s.selector, store, v, more);
      assert HeadSeq(cfg, CutCases(Steered(dom, plan), cfg, s.cases, i, Tick(store)).rest) == kind;
    }
  }

  lemma {:induction false} BeginsSomehowSeq(cfg: Config, dom: Domain, ss: seq<Stmt>, kind: Head) returns (values: seq<int>)
    requires Inhabited(dom) && IsSourceSeq(ss) && MayBeginSeq(cfg, dom, ss, kind)
    ensures LeadsSeq(cfg, dom, ss, kind, values)
    decreases ss, 0
  {
    values := [];
    if ss != [] {
      if Contains(cfg, ss[0]) {
        var inner := if kind != Silent && MayBegin(cfg, dom, ss[0], kind) then kind else Silent;
        values := BeginsSomehow(cfg, dom, ss[0], inner);
        forall plan: Plan, store: Store | Says(plan, Count(store), values)
          ensures HeadSeq(cfg, CutSeq(Steered(dom, plan), cfg, ss, store).rest) == kind
        {
          var rest := Cut(Steered(dom, plan), cfg, ss[0], store).rest;
          assert HeadSeq(cfg, rest) == inner;
          HeadSeqAppend(cfg, rest, ss[1..]);
        }
      } else {
        var first := SomeWay(dom, ss[0]);
        var more := BeginsSomehowSeq(cfg, dom, ss[1..], kind);
        values := first + more;
        forall plan: Plan, store: Store | Says(plan, Count(store), values)
          ensures HeadSeq(cfg, CutSeq(Steered(dom, plan), cfg, ss, store).rest) == kind
        {
          SaysBoth(plan, Count(store), first, more);
          var r := Exec(Steered(dom, plan), ss[0], store);
          assert Count(r.store) == Count(store) + |first|;
          assert HeadSeq(cfg, CutSeq(Steered(dom, plan), cfg, ss[1..], r.store).rest) == kind;
        }
      }
    }
  }

  lemma {:induction false} BeginsSomehowCases(cfg: Config, dom: Domain, cases: seq<Case>, i: nat, kind: Head)
    returns (values: seq<int>)
    requires Inhabited(dom) && IsSourceCases(cases) && MayBeginCases(cfg, dom, cases, i, kind)
    ensures LeadsCases(cfg, dom, cases, i, kind, values)
    decreases cases, 0
  {
    values := [];
    if cases != [] {
      if i == 0 && cases[0].body.Some? {
        assert cases[0].body.value < cases[0];
        values := BeginsSomehow(cfg, dom, cases[0].body.value, kind);
        forall plan: Plan, store: Store | Says(plan, Count(store), values)
          ensures HeadSeq(cfg, CutCases(Steered(dom, plan), cfg, cases, i, store).rest) == kind
        {
          assert CutCases(Steered(dom, plan), cfg, cases, i, store) == Cut(Steered(dom, plan), cfg, cases[0].body.value, store);
        }
      } else {
        var next := if i > 0 then i - 1 else 0;
        values := BeginsSomehowCases(cfg, dom, cases[1..], next, kind);
        forall plan: Plan, store: Store | Says(plan, Count(store), values)
          ensures HeadSeq(cfg, CutCases(Steered(dom, plan), cfg, cases, i, store).rest) == kind
        {
          assert CutCases(Steered(dom, plan), cfg, cases, i, store) == CutCases(Steered(dom, plan), cfg, cases[1..], next, store);
        }
      }
    }
  }

  // ---------------------------------------------------------------- the promise

  /** On the path taken from `store`, `before` runs what the original runs up to its first match. */
  ghost predicate CutAtFirstMatch(cfg: Config, w: World, s: Stmt, firstName: nat, store: Store) {
    ExecOption(w, SplitRoot(cfg, s, firstName).before, store).trace == Until(w, cfg, s, store).trace
  }

  lemma KeptUnlessNoisy(cfg: Config, w: World, s: Stmt, firstName: nat, store: Store)
    requires Oblivious(w) && IsSource(s) && !MatchesRoot(cfg, s)
    ensures CutAtFirstMatch(cfg, w, s, firstName, store) <==> HeadSeq(cfg, Cut(w, cfg, s, store).rest) != Noisy
  {
    var c := Cut(w, cfg, s, store);
    AfterResumesAtCut(cfg, w, s, firstName, store, ExecOption(w, SplitRoot(cfg, s, firstName).before, store).store);
    CutThenUntil(w, cfg, s, store);
    IsSourceRest(cfg, w, s, store);
    HeadSeqTells(w, cfg, c.rest, c.store);
    assert c.trace + [] == c.trace;
    assert |Until(w, cfg, s, store).trace| == |c.trace| + |UntilSeq(w, cfg, c.rest, c.store).trace|;
  }

  /**
   The header promises that on every path all statements up to the first match are in `before`. That
   holds in every world and from every store exactly when no block goes on, with something that runs
   before a match, after a component that contains a match but may complete without reaching it.
   What may happen is decided by the values that the types of conditions and selectors have.
   */
  lemma EveryPathCutAtFirstMatch(cfg: Config, dom: Domain, s: Stmt, firstName: nat)
    requires IsSource(s) && !MatchesRoot(cfg, s) && Inhabited(dom)
    ensures (forall w: World, store: Store | Oblivious(w) && Typed(w, dom) :: CutAtFirstMatch(cfg, w, s, firstName, store))
            <==> !MayBegin(cfg, dom, s, Noisy)
  {
    if MayBegin(cfg, dom, s, Noisy) {
      var values := BeginsSomehow(cfg, dom, s, Noisy);
      var plan: Plan := (n: nat) => if n < |values| then values[n] else 0;
      var w, store: Store := Steered(dom, plan), map[];
      SteeredIsLawful(dom, plan);
      assert Says(plan, Count(store), values);
      assert HeadSeq(cfg, Cut(w, cfg, s, store).rest) == Noisy;
      KeptUnlessNoisy(cfg, w, s, firstName, store);
      assert !CutAtFirstMatch(cfg, w, s, firstName, store);
    } else {
      forall w: World, store: Store | Oblivious(w) && Typed(w, dom) ensures CutAtFirstMatch(cfg, w, s, firstName, store) {
        BeginsAsSaid(cfg, dom, w, s, store);
        KeptUnlessNoisy(cfg, w, s, firstName, store);
      }
    }
  }

  /** `switch (e) { 1: m1; default: m2; } plain;` keeps the promise, whatever values `e` takes, and
      without the default it does not unless 1 is the only one. */
  lemma DefaultKeepsPromise(cfg: Config, dom: Domain)
    requires forall s: Stmt :: cfg.matches(s) <==> s == Leaf(1, {}) || s == Leaf(2, {})
    ensures var one, other := Case(Value(1), Some(Leaf(1, {}))), Case(Default, Some(Leaf(2, {})));
            && !MayBegin(cfg, dom, Block(0, [Switch(0, Original(0, {}), [one, other]), Leaf(3, {})]), Noisy)
            && (MayBegin(cfg, dom, Block(0, [Switch(0, Original(0, {}), [one]), Leaf(3, {})]), Noisy) <==>
                  exists v <- dom(0) :: v != 1)
  {
    var one, other := Case(Value(1), Some(Leaf(1, {}))), Case(Default, Some(Leaf(2, {})));
    var full, partial := Switch(0, Original(0, {}), [one, other]), Switch(0, Original(0, {}), [one]);
    OneOrOther(cfg, dom, one, other);
    assert Contains(cfg, full) && Contains(cfg, partial);
    SwitchThenPlain(cfg, dom, full);
    SwitchThenPlain(cfg, dom, partial);
    if v :| v in dom(0) && v != 1 {
      assert v in DomainOf(dom, partial.selector);
      assert MayBegin(cfg, dom, partial, Silent);
    }
  }

  lemma OneOrOther(cfg: Config, dom: Domain, one: Case, other: Case)
    requires one.body.Some? && one.body.value.Leaf? && cfg.matches(one.body.value)
    requires other.body.Some? && other.body.value.Leaf? && cfg.matches(other.body.value)
    requires one.caseLabel == Value(1) && other.caseLabel == Default
    ensures ContainsCases(cfg, [one, other]) && ContainsCases(cfg, [one])
    ensures forall v, kind: Head ::
      && (MayBeginCases(cfg, dom, [one, other], Chosen(Labels([one, other]), v), kind) <==> kind == Reaches)
      && (MayBeginCases(cfg, dom, [one], Chosen(Labels([one]), v), kind) <==> kind == if v == 1 then Reaches else Silent)
  {
    assert Labels([one, other]) == [Value(1), Default] && Labels([one]) == [Value(1)];
    assert [one, other][1..] == [other] && [other][1..] == [] && [one][1..] == [];
    assert [Value(1), Default][1..] == [Default] && [Default][1..] == [] && [Value(1)][1..] == [];
    forall kind: Head
      ensures MayBeginCases(cfg, dom, [one, other], 0, kind) <==> kind == Reaches
      ensures MayBeginCases(cfg, dom, [one, other], 1, kind) <==> kind == Reaches
      ensures MayBeginCases(cfg, dom, [one], 0, kind) <==> kind == Reaches
      ensures MayBeginCases(cfg, dom, [one], 1, kind) <==> kind == Silent
    {
      assert Contains(cfg, one.body.value) && Contains(cfg, other.body.value);
      assert MayBeginCases(cfg, dom, [other], 0, kind) <==> kind == Reaches;
      assert MayBeginCases(cfg, dom, [], 0, kind) <==> kind == Silent;
    }
    assert forall v :: Chosen([Value(1), Default], v) == if v == 1 then 0 else 1;
    assert forall v :: Chosen([Value(1)], v) == if v == 1 then 0 else 1;
  }

  lemma SwitchThenPlain(cfg: Config, dom: Domain, s: Stmt)
    requires s.Switch? && Contains(cfg, s) && !cfg.matches(s) && !cfg.matches(Leaf(3, {})) && !cfg.matches(Block(0, [s, Leaf(3, {})]))
    ensures MayBegin(cfg, dom, Block(0, [s, Leaf(3, {})]), Noisy) <==>
              MayBegin(cfg, dom, s, Noisy) || MayBegin(cfg, dom, s, Silent)
  {
    var ss := [s, Leaf(3, {})];
    assert ss[1..] == [Leaf(3, {})] && HeadSeq(cfg, ss[1..]) == Noisy;
    assert Contains(cfg, Block(0, ss));
  }

  /** No leaf satisfying the predicate is in the `before` the pass returns, unless the root is itself a
      match: then it is returned whole. */
  lemma ReturnedBeforeHasNoMatchingLeaf(cfg: Config, root: Stmt, firstName: nat)
    ensures !MatchesRoot(cfg, root) ==> NoLeafMatchesOption(cfg, SplitRoot(cfg, root, firstName).before)
    ensures MatchesRoot(cfg, root) ==> SplitRoot(cfg, root, firstName).before == Some(root)
  {
    var st := State(firstName, {});
    SplitFindsMatch(cfg, root, st);
    if !MatchesRoot(cfg, root) {
      if Contains(cfg, root) {
        BeforeHasNoMatchingLeaf(cfg, root, st);
        SplitKeepsBefore(cfg, root, st);
      } else {
        NothingFoundNoLeafMatches(cfg, root);
      }
    }
  }

  /** `{ if (c) match; plain; }` with `c` false: `plain` is put in `after` though nothing matched. */
  lemma PathCutEarly(cfg: Config, w: World, store: Store)
    requires Oblivious(w) && forall s: Stmt :: cfg.matches(s) <==> s == Leaf(1, {})
    requires w.value(0, store) == 0
    ensures var s := Block(0, [If(0, Original(0, {}), Leaf(1, {}), None), Leaf(2, {})]);
            && Cut(w, cfg, s, store).rest == [Leaf(2, {})]
            && !CutAtFirstMatch(cfg, w, s, 0, store)
  {
    var branch := If(0, Original(0, {}), Leaf(1, {}), None);
    var s := Block(0, [branch, Leaf(2, {})]);
    assert Contains(cfg, Leaf(1, {}));
    assert Contains(cfg, branch);
    assert Contains(cfg, s);
    CutIf(w, cfg, branch, store);
    assert Cut(w, cfg, branch, store).rest == [];
    assert s.components[1..] == [Leaf(2, {})];
    assert CutSeq(w, cfg, s.components, store).rest == [] + [Leaf(2, {})];
    KeptUnlessNoisy(cfg, w, s, 0, store);
  }
}
