/** Places in a statement: where names are used and declared, and what is at or behind a match. */
module SplitterPlaces {
  import opened Wrappers
  import opened Splitter
  import opened SplitterMeaning
  import opened SplitterStructure

  // ---------------------------------------------------------------- places

  /** What a statement is made of. */
  datatype Part = AStmt(stmt: Stmt) | AnExpr(expr: Expr)

  /** From a statement to a place inside, by the numbers of the parts on the way. */
  type Place = seq<nat>

  function Step(n: Part, i: nat): Option<Part> {
    match n
    case AnExpr(_) => None
    case AStmt(s) =>
      match s
      case Leaf(_, _) => None
      case Decl(_) => None
      case Assign(_, e) => if i == 0 then Some(AnExpr(e)) else None
      case Block(_, components) => if i < |components| then Some(AStmt(components[i])) else None
      case If(_, e, t, f) =>
        if i == 0 then Some(AnExpr(e)) else if i == 1 then Some(AStmt(t)) else if i == 2 then Branch(f) else None
      case Switch(_, e, cases) =>
        if i == 0 then Some(AnExpr(e)) else if i <= |cases| then Branch(cases[i - 1].body) else None
  }

  function Branch(s: Option<Stmt>): Option<Part> {
    if s.Some? then Some(AStmt(s.value)) else None
  }

  function At(n: Part, p: Place): Option<Part>
    decreases |p|
  {
    if p == [] then Some(n)
    else if Step(n, p[0]).Some? then At(Step(n, p[0]).value, p[1..])
    else None
  }

  /** The part itself has a use of `x` that resolves inside the statement being split. */
  predicate Uses(cfg: Config, n: Part, x: string) {
    match n
    case AStmt(s) => s.Leaf? && x in s.uses && cfg.resolves(x, s.id)
    case AnExpr(e) => e.Original? && x in e.uses && cfg.resolves(x, e.id)
  }

  predicate UsedAt(cfg: Config, n: Part, p: Place, x: string) {
    At(n, p).Some? && Uses(cfg, At(n, p).value, x)
  }

  predicate IsMatch(cfg: Config, n: Part) {
    n.AStmt? && !n.stmt.Decl? && cfg.matches(n.stmt)
  }

  predicate MatchAt(cfg: Config, n: Part, q: Place) {
    At(n, q).Some? && IsMatch(cfg, At(n, q).value)
  }

  predicate DeclaredAt(n: Part, d: Place, name: Name) {
    At(n, d) == Some(AStmt(Decl(name)))
  }

  predicate IsBlock(n: Part) {
    n.AStmt? && n.stmt.Block?
  }

  /** `p` is inside what is at `q`, or in a later component of a block around it. */
  predicate AtOrBehind(n: Part, p: Place, q: Place)
    decreases |p|
  {
    q == [] ||
    (p != [] &&
     if p[0] == q[0] then Step(n, p[0]).Some? && AtOrBehind(Step(n, p[0]).value, p[1..], q[1..])
     else IsBlock(n) && q[0] < p[0])
  }

  /** `p` is inside what is at `q`, or in the component of a block that `q` is in, or in a later one. */
  predicate AroundOrBehind(n: Part, p: Place, q: Place)
    decreases |p|
  {
    q == [] ||
    (p != [] &&
     if IsBlock(n) then q[0] <= p[0]
     else p[0] == q[0] && Step(n, p[0]).Some? && AroundOrBehind(Step(n, p[0]).value, p[1..], q[1..]))
  }

  ghost predicate HasUse(cfg: Config, n: Part, x: string) {
    exists p: Place :: UsedAt(cfg, n, p, x)
  }

  ghost predicate HasMatch(cfg: Config, n: Part) {
    exists q: Place :: MatchAt(cfg, n, q)
  }

  ghost predicate HasDecl(n: Part, name: Name) {
    exists d: Place :: DeclaredAt(n, d, name)
  }

  ghost predicate HasUseBehind(cfg: Config, n: Part, x: string) {
    exists p: Place, q: Place :: UsedAt(cfg, n, p, x) && MatchAt(cfg, n, q) && AtOrBehind(n, p, q)
  }

  ghost predicate HasUseAround(cfg: Config, n: Part, x: string) {
    exists p: Place, q: Place :: UsedAt(cfg, n, p, x) && MatchAt(cfg, n, q) && AroundOrBehind(n, p, q)
  }

  /** A place in front of every match. */
  ghost predicate InFront(cfg: Config, n: Part, d: Place) {
    forall q: Place | MatchAt(cfg, n, q) :: !AtOrBehind(n, d, q)
  }

  ghost predicate HasDeclInFront(cfg: Config, n: Part, name: Name) {
    exists d: Place :: DeclaredAt(n, d, name) && InFront(cfg, n, d)
  }

  // ---------------------------------------------------------------- one step into a part

  lemma AtStep(n: Part, i: nat, p: Place)
    requires Step(n, i).Some?
    ensures At(n, [i] + p) == At(Step(n, i).value, p)
  {
    assert ([i] + p)[1..] == p;
  }

  lemma StepUse(cfg: Config, n: Part, x: string)
    ensures HasUse(cfg, n, x) <==>
              Uses(cfg, n, x) || exists i: nat :: Step(n, i).Some? && HasUse(cfg, Step(n, i).value, x)
  {
    if p: Place :| UsedAt(cfg, n, p, x) {
      if p != [] { assert UsedAt(cfg, Step(n, p[0]).value, p[1..], x); }
    }
    if Uses(cfg, n, x) { assert UsedAt(cfg, n, [], x); }
    if i: nat :| Step(n, i).Some? && HasUse(cfg, Step(n, i).value, x) {
      var p: Place :| UsedAt(cfg, Step(n, i).value, p, x);
      AtStep(n, i, p);
      assert UsedAt(cfg, n, [i] + p, x);
    }
  }

  lemma StepMatch(cfg: Config, n: Part)
    ensures HasMatch(cfg, n) <==>
              IsMatch(cfg, n) || exists i: nat :: Step(n, i).Some? && HasMatch(cfg, Step(n, i).value)
  {
    if q: Place :| MatchAt(cfg, n, q) {
      if q != [] { assert MatchAt(cfg, Step(n, q[0]).value, q[1..]); }
    }
    if IsMatch(cfg, n) { assert MatchAt(cfg, n, []); }
    if i: nat :| Step(n, i).Some? && HasMatch(cfg, Step(n, i).value) {
      var q: Place :| MatchAt(cfg, Step(n, i).value, q);
      AtStep(n, i, q);
      assert MatchAt(cfg, n, [i] + q);
    }
  }

  lemma StepDecl(n: Part, name: Name)
    ensures HasDecl(n, name) <==>
              n == AStmt(Decl(name)) || exists i: nat :: Step(n, i).Some? && HasDecl(Step(n, i).value, name)
  {
    if d: Place :| DeclaredAt(n, d, name) {
      if d != [] { assert DeclaredAt(Step(n, d[0]).value, d[1..], name); }
    }
    if n == AStmt(Decl(name)) { assert DeclaredAt(n, [], name); }
    if i: nat :| Step(n, i).Some? && HasDecl(Step(n, i).value, name) {
      var d: Place :| DeclaredAt(Step(n, i).value, d, name);
      AtStep(n, i, d);
      assert DeclaredAt(n, [i] + d, name);
    }
  }

  /** A use in one component of a block and a match in another. */
  lemma UseAndMatch(cfg: Config, n: Part, i: nat, j: nat, x: string) returns (p: Place, q: Place)
    requires Step(n, i).Some? && Step(n, j).Some?
    requires HasUse(cfg, Step(n, i).value, x) && HasMatch(cfg, Step(n, j).value)
    ensures UsedAt(cfg, n, p, x) && MatchAt(cfg, n, q) && p != [] && q != [] && p[0] == i && q[0] == j
  {
    var p': Place :| UsedAt(cfg, Step(n, i).value, p', x);
    var q': Place :| MatchAt(cfg, Step(n, j).value, q');
    AtStep(n, i, p');
    AtStep(n, j, q');
    p, q := [i] + p', [j] + q';
  }

  lemma StepBehind(cfg: Config, n: Part, i: nat, x: string)
    requires Step(n, i).Some? && HasUseBehind(cfg, Step(n, i).value, x)
    ensures HasUseBehind(cfg, n, x)
  {
    var c := Step(n, i).value;
    var p: Place, q: Place :| UsedAt(cfg, c, p, x) && MatchAt(cfg, c, q) && AtOrBehind(c, p, q);
    AtStep(n, i, p);
    AtStep(n, i, q);
    assert ([i] + p)[1..] == p && ([i] + q)[1..] == q;
    assert UsedAt(cfg, n, [i] + p, x) && MatchAt(cfg, n, [i] + q) && AtOrBehind(n, [i] + p, [i] + q);
  }

  /** Where a use behind a match comes from. */
  lemma BehindFrom(cfg: Config, n: Part, x: string)
    requires HasUseBehind(cfg, n, x) && !IsMatch(cfg, n)
    ensures (exists i: nat :: Step(n, i).Some? && HasUseBehind(cfg, Step(n, i).value, x))
            || (IsBlock(n) && exists i: nat, j: nat ::
                  i < j && Step(n, i).Some? && Step(n, j).Some?
                  && HasMatch(cfg, Step(n, i).value) && HasUse(cfg, Step(n, j).value, x))
  {
    var p: Place, q: Place :| UsedAt(cfg, n, p, x) && MatchAt(cfg, n, q) && AtOrBehind(n, p, q);
    assert q != [];
    var i, j := q[0], p[0];
    assert MatchAt(cfg, Step(n, i).value, q[1..]) && UsedAt(cfg, Step(n, j).value, p[1..], x);
    if i == j { assert HasUseBehind(cfg, Step(n, i).value, x); }
  }

  // ---------------------------------------------------------------- what is used

  lemma {:induction false} NeededBySeqIs(cfg: Config, ss: seq<Stmt>, x: string)
    ensures x in NeededBySeq(cfg, ss) <==> exists i: nat :: i < |ss| && x in Needed(cfg, ss[i])
  {
    if ss != [] {
      NeededBySeqIs(cfg, ss[1..], x);
      if i: nat :| i < |ss| && x in Needed(cfg, ss[i]) {
        if i > 0 { assert ss[1..][i - 1] == ss[i]; }
      }
      if x in NeededBySeq(cfg, ss[1..]) {
        var i: nat :| i < |ss[1..]| && x in Needed(cfg, ss[1..][i]);
        assert ss[i + 1] == ss[1..][i];
      }
      if x in Needed(cfg, ss[0]) { assert 0 < |ss|; }
    }
  }

  lemma {:induction false} NeededByCasesIs(cfg: Config, cs: seq<Case>, x: string)
    ensures x in NeededByCases(cfg, cs) <==> exists c :: c in cs && c.body.Some? && x in Needed(cfg, c.body.value)
  {
    if cs != [] {
      NeededByCasesIs(cfg, cs[1..], x);
      assert cs == [cs[0]] + cs[1..];
    }
  }

  /** The parts of a switch. */
  lemma SwitchSteps(s: Stmt, has: Part -> bool)
    requires s.Switch?
    ensures (exists i: nat :: Step(AStmt(s), i).Some? && has(Step(AStmt(s), i).value)) <==>
              has(AnExpr(s.selector)) || exists c :: c in s.cases && c.body.Some? && has(AStmt(c.body.value))
  {
    var n := AStmt(s);
    if i: nat :| Step(n, i).Some? && has(Step(n, i).value) {
      if i > 0 { assert s.cases[i - 1] in s.cases; }
    }
    assert Step(n, 0) == Some(AnExpr(s.selector));
    if c :| c in s.cases && c.body.Some? && has(AStmt(c.body.value)) {
      var i: nat :| i < |s.cases| && s.cases[i] == c;
      assert Step(n, i + 1) == Some(AStmt(c.body.value));
    }
  }

  /** The parts of a conditional. */
  lemma IfSteps(s: Stmt, has: Part -> bool)
    requires s.If?
    ensures (exists i: nat :: Step(AStmt(s), i).Some? && has(Step(AStmt(s), i).value)) <==>
              has(AnExpr(s.condition)) || has(AStmt(s.ifTrue)) || (s.ifFalse.Some? && has(AStmt(s.ifFalse.value)))
  {
    var n := AStmt(s);
    assert Step(n, 0) == Some(AnExpr(s.condition)) && Step(n, 1) == Some(AStmt(s.ifTrue)) && Step(n, 2) == Branch(s.ifFalse);
  }

  lemma ExprUse(cfg: Config, e: Expr, x: string)
    ensures HasUse(cfg, AnExpr(e), x) <==> x in NeededByExpr(cfg, e)
  {
    StepUse(cfg, AnExpr(e), x);
  }

  /** What the splitter collects from a statement: the names with a resolved use somewhere in it,
      conditions and selectors included. */
  lemma {:induction false} NeededExactly(cfg: Config, s: Stmt, x: string)
    ensures x in Needed(cfg, s) <==> HasUse(cfg, AStmt(s), x)
    decreases s
  {
    var n := AStmt(s);
    StepUse(cfg, n, x);
    match s
    case Leaf(_, _) =>
    case Decl(_) =>
    case Assign(_, e) =>
      ExprUse(cfg, e, x);
      assert Step(n, 0) == Some(AnExpr(e));
    case Block(_, components) =>
      NeededBySeqIs(cfg, components, x);
      forall i: nat | i < |components|
        ensures x in Needed(cfg, components[i]) <==> Step(n, i).Some? && HasUse(cfg, Step(n, i).value, x)
      {
        NeededExactly(cfg, components[i], x);
      }
    case If(_, e, t, f) =>
      ExprUse(cfg, e, x);
      NeededExactly(cfg, t, x);
      if f.Some? { NeededExactly(cfg, f.value, x); }
      IfSteps(s, part => HasUse(cfg, part, x));
    case Switch(_, e, cases) =>
      ExprUse(cfg, e, x);
      NeededByCasesIs(cfg, cases, x);
      forall c | c in cases && c.body.Some?
        ensures x in Needed(cfg, c.body.value) <==> HasUse(cfg, AStmt(c.body.value), x)
      {
        assert c.body.value < c;
        NeededExactly(cfg, c.body.value, x);
      }
      SwitchSteps(s, part => HasUse(cfg, part, x));
  }

  // ---------------------------------------------------------------- matches and declarations

  lemma {:induction false} ContainsSeqIs(cfg: Config, ss: seq<Stmt>)
    ensures ContainsSeq(cfg, ss) <==> exists s :: s in ss && Contains(cfg, s)
  {
    if ss != [] {
      ContainsSeqIs(cfg, ss[1..]);
      assert ss == [ss[0]] + ss[1..] && ss[0] in ss;
    }
  }

  lemma {:induction false} ContainsCasesIs(cfg: Config, cs: seq<Case>)
    ensures ContainsCases(cfg, cs) <==> exists c :: c in cs && c.body.Some? && Contains(cfg, c.body.value)
  {
    if cs != [] {
      ContainsCasesIs(cfg, cs[1..]);
      assert cs == [cs[0]] + cs[1..];
    }
  }

  /** The components of a block. */
  lemma BlockSteps(s: Stmt, has: Part -> bool)
    requires s.Block?
    ensures (exists i: nat :: Step(AStmt(s), i).Some? && has(Step(AStmt(s), i).value)) <==>
              exists c :: c in s.components && has(AStmt(c))
  {
    var n := AStmt(s);
    if i: nat :| Step(n, i).Some? && has(Step(n, i).value) {
      assert s.components[i] in s.components;
    }
    if c :| c in s.components && has(AStmt(c)) {
      var i: nat :| i < |s.components| && s.components[i] == c;
      assert Step(n, i) == Some(AStmt(c));
    }
  }

  lemma NothingInExpr(cfg: Config, e: Expr, name: Name)
    ensures !HasMatch(cfg, AnExpr(e)) && !HasDecl(AnExpr(e), name)
  {
    StepMatch(cfg, AnExpr(e));
    StepDecl(AnExpr(e), name);
  }

  /** A statement contains a match exactly if there is one at some place. */
  lemma {:induction false} ContainsExactly(cfg: Config, s: Stmt)
    ensures Contains(cfg, s) <==> HasMatch(cfg, AStmt(s))
    decreases s
  {
    StepMatch(cfg, AStmt(s));
    match s
    case Leaf(_, _) =>
    case Decl(_) =>
    case Assign(_, e) => NothingInExpr(cfg, e, Source(""));
    case Block(_, components) =>
      ContainsSeqIs(cfg, components);
      forall c | c in components ensures Contains(cfg, c) <==> HasMatch(cfg, AStmt(c)) {
        ContainsExactly(cfg, c);
      }
      BlockSteps(s, part => HasMatch(cfg, part));
    case If(_, e, t, f) =>
      NothingInExpr(cfg, e, Source(""));
      ContainsExactly(cfg, t);
      if f.Some? { ContainsExactly(cfg, f.value); }
      IfSteps(s, part => HasMatch(cfg, part));
    case Switch(_, e, cases) =>
      NothingInExpr(cfg, e, Source(""));
      ContainsCasesIs(cfg, cases);
      forall c | c in cases && c.body.Some? ensures Contains(cfg, c.body.value) <==> HasMatch(cfg, AStmt(c.body.value)) {
        assert c.body.value < c;
        ContainsExactly(cfg, c.body.value);
      }
      SwitchSteps(s, part => HasMatch(cfg, part));
  }

  lemma {:induction false} DeclsSeqIs(ss: seq<Stmt>, name: Name)
    ensures DeclsSeq(ss, name) > 0 <==> exists s :: s in ss && Decls(s, name) > 0
  {
    if ss != [] {
      DeclsSeqIs(ss[1..], name);
      assert ss == [ss[0]] + ss[1..] && ss[0] in ss;
    }
  }

  lemma {:induction false} DeclsCasesIs(cs: seq<Case>, name: Name)
    ensures DeclsCases(cs, name) > 0 <==> exists c :: c in cs && c.body.Some? && Decls(c.body.value, name) > 0
  {
    if cs != [] {
      DeclsCasesIs(cs[1..], name);
      assert cs == [cs[0]] + cs[1..];
    }
  }

  /** Declarations are counted at all places. */
  lemma {:induction false} DeclaredExactly(s: Stmt, name: Name)
    ensures Decls(s, name) > 0 <==> HasDecl(AStmt(s), name)
    decreases s
  {
    var cfg := Config(_ => false, (_, _) => false);
    StepDecl(AStmt(s), name);
    match s
    case Leaf(_, _) =>
    case Decl(_) =>
    case Assign(_, e) => NothingInExpr(cfg, e, name);
    case Block(_, components) =>
      DeclsSeqIs(components, name);
      forall c | c in components ensures Decls(c, name) > 0 <==> HasDecl(AStmt(c), name) {
        DeclaredExactly(c, name);
      }
      BlockSteps(s, part => HasDecl(part, name));
    case If(_, e, t, f) =>
      NothingInExpr(cfg, e, name);
      DeclaredExactly(t, name);
      if f.Some? { DeclaredExactly(f.value, name); }
      IfSteps(s, part => HasDecl(part, name));
    case Switch(_, e, cases) =>
      NothingInExpr(cfg, e, name);
      DeclsCasesIs(cases, name);
      forall c | c in cases && c.body.Some? ensures Decls(c.body.value, name) > 0 <==> HasDecl(AStmt(c.body.value), name) {
        assert c.body.value < c;
        DeclaredExactly(c.body.value, name);
      }
      SwitchSteps(s, part => HasDecl(part, name));
  }

  // ---------------------------------------------------------------- what runs is at some place

  predicate Emits(n: Part, e: Event) {
    match n
    case AStmt(s) => s.Leaf? && e == RanLeaf(s.id)
    case AnExpr(x) => x.Original? && e == Evaluated(x.id)
  }

  ghost predicate HasSource(n: Part, e: Event) {
    exists p: Place :: At(n, p).Some? && Emits(At(n, p).value, e)
  }

  lemma StepSource(n: Part, i: nat, e: Event)
    requires Step(n, i).Some? && HasSource(Step(n, i).value, e)
    ensures HasSource(n, e)
  {
    var p: Place :| At(Step(n, i).value, p).Some? && Emits(At(Step(n, i).value, p).value, e);
    AtStep(n, i, p);
  }

  lemma EvaluatedPart(w: World, n: Part, e: Expr, store: Store, event: Event)
    requires Step(n, 0) == Some(AnExpr(e)) && event in Evaluate(w, e, store).trace
    ensures HasSource(n, event)
  {
    assert At(AnExpr(e), []).Some? && Emits(At(AnExpr(e), []).value, event);
    StepSource(n, 0, event);
  }

  /** Every event of a run is that of a leaf or an expression at some place of the statement. */
  lemma {:induction false} RunsParts(w: World, s: Stmt, store: Store, event: Event)
    requires event in Exec(w, s, store).trace
    ensures HasSource(AStmt(s), event)
    decreases s, 1
  {
    var n := AStmt(s);
    match s
    case Leaf(_, _) => assert At(n, []).Some? && Emits(At(n, []).value, event);
    case Assign(_, e) => EvaluatedPart(w, n, e, store, event);
    case Block(_, components) =>
      var i := RunsComponent(w, components, store, event);
      StepSource(n, i, event);
    case If(_, e, t, f) =>
      var r := Evaluate(w, e, store);
      if event in r.trace { EvaluatedPart(w, n, e, store, event); }
      else if ValueOf(w, e, store) != 0 {
        RunsParts(w, t, r.store, event);
        StepSource(n, 1, event);
      } else {
        RunsParts(w, f.value, r.store, event);
        StepSource(n, 2, event);
      }
    case Switch(_, e, cases) =>
      var r := Evaluate(w, e, store);
      if event in r.trace { EvaluatedPart(w, n, e, store, event); }
      else {
        var i := RunsCase(w, cases, Chosen(Labels(cases), ValueOf(w, e, store)), r.store, event);
        StepSource(n, i + 1, event);
      }
  }

  lemma {:induction false} RunsComponent(w: World, ss: seq<Stmt>, store: Store, event: Event) returns (i: nat)
    requires event in ExecSeq(w, ss, store).trace
    ensures i < |ss| && HasSource(AStmt(ss[i]), event)
    decreases ss, 0
  {
    var r := Exec(w, ss[0], store);
    if event in r.trace {
      RunsParts(w, ss[0], store, event);
      i := 0;
    } else {
      var j := RunsComponent(w, ss[1..], r.store, event);
      i := j + 1;
    }
  }

  lemma {:induction false} RunsCase(w: World, cases: seq<Case>, first: nat, store: Store, event: Event) returns (i: nat)
    requires event in ExecCases(w, cases, first, store).trace
    ensures i < |cases| && cases[i].body.Some? && HasSource(AStmt(cases[i].body.value), event)
    decreases cases, 0
  {
    if first == 0 && cases[0].body.Some? {
      assert cases[0].body.value < cases[0];
      RunsParts(w, cases[0].body.value, store, event);
      i := 0;
    } else {
      var j := RunsCase(w, cases[1..], if first > 0 then first - 1 else 0, store, event);
      i := j + 1;
    }
  }
}
