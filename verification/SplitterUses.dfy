/** The promise of ir/splitter.h that declarations which `after` would no longer see are hoisted, in
    terms of the places where names are used and declared: exactly when it fails. */
module SplitterUses {
  import opened Wrappers
  import opened Splitter
  import opened SplitterMeaning
  import opened SplitterStructure
  import opened SplitterPreserves
  import opened SplitterHoisting
  import opened SplitterPlaces

  // ---------------------------------------------------------------- uses at or behind a match

  lemma BehindIsUse(cfg: Config, n: Part, x: string)
    ensures HasUseBehind(cfg, n, x) ==> HasUse(cfg, n, x) && HasMatch(cfg, n)
    ensures HasUseAround(cfg, n, x) ==> HasUse(cfg, n, x) && HasMatch(cfg, n)
  {
  }

  /** At a match everything counts. */
  lemma AtMatch(cfg: Config, n: Part, x: string)
    requires IsMatch(cfg, n)
    ensures HasUseBehind(cfg, n, x) <==> HasUse(cfg, n, x)
    ensures HasUseAround(cfg, n, x) <==> HasUse(cfg, n, x)
  {
    if HasUse(cfg, n, x) {
      var p: Place :| UsedAt(cfg, n, p, x);
      assert MatchAt(cfg, n, []) && AtOrBehind(n, p, []) && AroundOrBehind(n, p, []);
    }
  }

  /** Without a block, what is behind a match is so in one part. */
  lemma BehindInPart(cfg: Config, n: Part, x: string)
    requires !IsMatch(cfg, n) && !IsBlock(n)
    ensures HasUseBehind(cfg, n, x) <==> exists i: nat :: Step(n, i).Some? && HasUseBehind(cfg, Step(n, i).value, x)
  {
    if HasUseBehind(cfg, n, x) { BehindFrom(cfg, n, x); }
    if i: nat :| Step(n, i).Some? && HasUseBehind(cfg, Step(n, i).value, x) { StepBehind(cfg, n, i, x); }
  }

  /** In a block, it may also be in a later component. */
  lemma BehindInBlock(cfg: Config, s: Stmt, x: string)
    requires s.Block? && !cfg.matches(s)
    ensures HasUseBehind(cfg, AStmt(s), x) <==>
              || (exists c :: c in s.components && HasUseBehind(cfg, AStmt(c), x))
              || LaterUse(cfg, s.components, x)
  {
    var n := AStmt(s);
    BlockSteps(s, part => HasUseBehind(cfg, part, x));
    if HasUseBehind(cfg, n, x) {
      BehindFrom(cfg, n, x);
      if i: nat, j: nat :| i < j && Step(n, i).Some? && Step(n, j).Some?
                           && HasMatch(cfg, Step(n, i).value) && HasUse(cfg, Step(n, j).value, x) {
        assert LaterUseAt(cfg, s.components, i, j, x);
      }
    }
    if i: nat :| Step(n, i).Some? && HasUseBehind(cfg, Step(n, i).value, x) { StepBehind(cfg, n, i, x); }
    if i: nat, j: nat :| LaterUseAt(cfg, s.components, i, j, x) {
      var p, q := UseAndMatch(cfg, n, j, i, x);
    }
  }

  ghost predicate LaterUseAt(cfg: Config, ss: seq<Stmt>, i: nat, j: nat, x: string) {
    i < j < |ss| && HasMatch(cfg, AStmt(ss[i])) && HasUse(cfg, AStmt(ss[j]), x)
  }

  /** A use in a component behind one with a match. */
  ghost predicate LaterUse(cfg: Config, ss: seq<Stmt>, x: string) {
    exists i: nat, j: nat :: LaterUseAt(cfg, ss, i, j, x)
  }

  lemma LaterUseFrom(cfg: Config, ss: seq<Stmt>, x: string)
    requires ss != []
    ensures LaterUse(cfg, ss, x) <==>
              || (HasMatch(cfg, AStmt(ss[0])) && exists c :: c in ss[1..] && HasUse(cfg, AStmt(c), x))
              || LaterUse(cfg, ss[1..], x)
  {
    if i: nat, j: nat :| LaterUseAt(cfg, ss, i, j, x) {
      if i == 0 { assert ss[j] == ss[1..][j - 1] && ss[j] in ss[1..]; }
      else { assert LaterUseAt(cfg, ss[1..], i - 1, j - 1, x); }
    }
    if HasMatch(cfg, AStmt(ss[0])) {
      if c :| c in ss[1..] && HasUse(cfg, AStmt(c), x) {
        var j: nat :| j < |ss[1..]| && ss[1..][j] == c;
        assert LaterUseAt(cfg, ss, 0, j + 1, x);
      }
    }
    if i: nat, j: nat :| LaterUseAt(cfg, ss[1..], i, j, x) {
      assert LaterUseAt(cfg, ss, i + 1, j + 1, x);
    }
  }

  /** `UsedAfter` says that some use is at or behind some match. */
  lemma {:induction false} UsedAfterExactly(cfg: Config, s: Stmt, x: string)
    ensures UsedAfter(cfg, s, x) <==> HasUseBehind(cfg, AStmt(s), x)
    decreases s, 1
  {
    var n := AStmt(s);
    BehindIsUse(cfg, n, x);
    ContainsExactly(cfg, s);
    NeededExactly(cfg, s, x);
    if Contains(cfg, s) {
      if cfg.matches(s) { AtMatch(cfg, n, x); }
      else {
        match s
        case Block(_, components) =>
          BehindInBlock(cfg, s, x);
          UsedAfterSeqExactly(cfg, components, x);
        case If(_, e, t, f) =>
          BehindInPart(cfg, n, x);
          BehindIsUse(cfg, AnExpr(e), x);
          NothingInExpr(cfg, e, Source(x));
          UsedAfterExactly(cfg, t, x);
          if f.Some? { UsedAfterExactly(cfg, f.value, x); }
          IfSteps(s, part => HasUseBehind(cfg, part, x));
        case Switch(_, e, cases) =>
          BehindInPart(cfg, n, x);
          BehindIsUse(cfg, AnExpr(e), x);
          NothingInExpr(cfg, e, Source(x));
          UsedAfterCasesExactly(cfg, cases, x);
          SwitchSteps(s, part => HasUseBehind(cfg, part, x));
        case _ =>
      }
    }
  }

  lemma {:induction false} UsedAfterSeqExactly(cfg: Config, ss: seq<Stmt>, x: string)
    ensures UsedAfterSeq(cfg, ss, x) <==> (exists c :: c in ss && HasUseBehind(cfg, AStmt(c), x)) || LaterUse(cfg, ss, x)
    decreases ss, 0
  {
    if ss != [] {
      UsedAfterExactly(cfg, ss[0], x);
      UsedAfterSeqExactly(cfg, ss[1..], x);
      ContainsExactly(cfg, ss[0]);
      UsedInSeq(cfg, ss[1..], x);
      LaterUseFrom(cfg, ss, x);
      BehindIsUse(cfg, AStmt(ss[0]), x);
      assert ss == [ss[0]] + ss[1..] && ss[0] in ss;
      LaterIsUse(cfg, ss[1..], x);
    }
  }

  lemma UsedInSeq(cfg: Config, ss: seq<Stmt>, x: string)
    ensures x in NeededBySeq(cfg, ss) <==> exists c :: c in ss && HasUse(cfg, AStmt(c), x)
  {
    NeededBySeqIs(cfg, ss, x);
    forall c ensures x in Needed(cfg, c) <==> HasUse(cfg, AStmt(c), x) {
      NeededExactly(cfg, c, x);
    }
    if i: nat :| i < |ss| && x in Needed(cfg, ss[i]) { assert ss[i] in ss; }
    if c :| c in ss && HasUse(cfg, AStmt(c), x) {
      var i: nat :| i < |ss| && ss[i] == c;
    }
  }

  lemma LaterIsUse(cfg: Config, ss: seq<Stmt>, x: string)
    ensures LaterUse(cfg, ss, x) || (exists c :: c in ss && HasUseBehind(cfg, AStmt(c), x))
            ==> exists c :: c in ss && HasUse(cfg, AStmt(c), x)
  {
    if i: nat, j: nat :| LaterUseAt(cfg, ss, i, j, x) { assert ss[j] in ss; }
    if c :| c in ss && HasUseBehind(cfg, AStmt(c), x) { BehindIsUse(cfg, AStmt(c), x); }
  }

  lemma {:induction false} UsedAfterCasesExactly(cfg: Config, cs: seq<Case>, x: string)
    ensures UsedAfterCases(cfg, cs, x) <==> exists c :: c in cs && c.body.Some? && HasUseBehind(cfg, AStmt(c.body.value), x)
    decreases cs, 0
  {
    if cs != [] {
      if cs[0].body.Some? {
        assert cs[0].body.value < cs[0];
        UsedAfterExactly(cfg, cs[0].body.value, x);
      }
      UsedAfterCasesExactly(cfg, cs[1..], x);
      assert cs == [cs[0]] + cs[1..] && cs[0] in cs;
    }
  }

  // ---------------------------------------------------------------- uses that are collected

  lemma StepAround(cfg: Config, n: Part, i: nat, x: string)
    requires !IsBlock(n) && Step(n, i).Some? && HasUseAround(cfg, Step(n, i).value, x)
    ensures HasUseAround(cfg, n, x)
  {
    var c := Step(n, i).value;
    var p: Place, q: Place :| UsedAt(cfg, c, p, x) && MatchAt(cfg, c, q) && AroundOrBehind(c, p, q);
    AtStep(n, i, p);
    AtStep(n, i, q);
    assert ([i] + p)[1..] == p && ([i] + q)[1..] == q;
    assert UsedAt(cfg, n, [i] + p, x) && MatchAt(cfg, n, [i] + q) && AroundOrBehind(n, [i] + p, [i] + q);
  }

  lemma AroundInPart(cfg: Config, n: Part, x: string)
    requires !IsMatch(cfg, n) && !IsBlock(n)
    ensures HasUseAround(cfg, n, x) <==> exists i: nat :: Step(n, i).Some? && HasUseAround(cfg, Step(n, i).value, x)
  {
    if p: Place, q: Place :| UsedAt(cfg, n, p, x) && MatchAt(cfg, n, q) && AroundOrBehind(n, p, q) {
      assert q != [];
      var c := Step(n, q[0]).value;
      assert UsedAt(cfg, c, p[1..], x) && MatchAt(cfg, c, q[1..]) && AroundOrBehind(c, p[1..], q[1..]);
      assert HasUseAround(cfg, c, x);
    }
    if i: nat :| Step(n, i).Some? && HasUseAround(cfg, Step(n, i).value, x) { StepAround(cfg, n, i, x); }
  }

  lemma AroundInBlock(cfg: Config, s: Stmt, x: string)
    requires s.Block? && !cfg.matches(s)
    ensures HasUseAround(cfg, AStmt(s), x) <==>
              || (exists c :: c in s.components && HasMatch(cfg, AStmt(c)) && HasUse(cfg, AStmt(c), x))
              || LaterUse(cfg, s.components, x)
  {
    var n := AStmt(s);
    if p: Place, q: Place :| UsedAt(cfg, n, p, x) && MatchAt(cfg, n, q) && AroundOrBehind(n, p, q) {
      assert q != [];
      var i, j := q[0], p[0];
      var a, b := s.components[i], s.components[j];
      assert MatchAt(cfg, AStmt(a), q[1..]) && UsedAt(cfg, AStmt(b), p[1..], x);
      if i < j { assert LaterUseAt(cfg, s.components, i, j, x); } else { assert a in s.components; }
    }
    if c :| c in s.components && HasMatch(cfg, AStmt(c)) && HasUse(cfg, AStmt(c), x) {
      var i: nat :| i < |s.components| && s.components[i] == c;
      var p, q := UseAndMatch(cfg, n, i, i, x);
      assert AroundOrBehind(n, p, q);
    }
    if i: nat, j: nat :| LaterUseAt(cfg, s.components, i, j, x) {
      var p, q := UseAndMatch(cfg, n, j, i, x);
      assert AroundOrBehind(n, p, q);
    }
  }

  /** A split collects the names used inside a match, or in a component of a block that has a match,
      or behind it. */
  lemma {:induction false} CollectedExactly(cfg: Config, s: Stmt, x: string)
    ensures x in Collected(cfg, s) <==> HasUseAround(cfg, AStmt(s), x)
    decreases s, 1
  {
    var n := AStmt(s);
    BehindIsUse(cfg, n, x);
    ContainsExactly(cfg, s);
    NeededExactly(cfg, s, x);
    if Contains(cfg, s) {
      if cfg.matches(s) { AtMatch(cfg, n, x); }
      else {
        match s
        case Block(_, components) =>
          AroundInBlock(cfg, s, x);
          CollectedSeqExactly(cfg, components, x);
        case If(_, e, t, f) =>
          AroundInPart(cfg, n, x);
          BehindIsUse(cfg, AnExpr(e), x);
          NothingInExpr(cfg, e, Source(x));
          CollectedExactly(cfg, t, x);
          if f.Some? { CollectedExactly(cfg, f.value, x); }
          IfSteps(s, part => HasUseAround(cfg, part, x));
        case Switch(_, e, cases) =>
          AroundInPart(cfg, n, x);
          BehindIsUse(cfg, AnExpr(e), x);
          NothingInExpr(cfg, e, Source(x));
          CollectedCasesExactly(cfg, cases, x);
          SwitchSteps(s, part => HasUseAround(cfg, part, x));
        case _ =>
      }
    }
  }

  lemma {:induction false} CollectedSeqExactly(cfg: Config, ss: seq<Stmt>, x: string)
    ensures x in CollectedSeq(cfg, ss) <==>
              || (exists c :: c in ss && HasMatch(cfg, AStmt(c)) && HasUse(cfg, AStmt(c), x))
              || LaterUse(cfg, ss, x)
    decreases ss, 0
  {
    if ss != [] {
      CollectedExactly(cfg, ss[0], x);
      CollectedSeqExactly(cfg, ss[1..], x);
      ContainsExactly(cfg, ss[0]);
      NeededExactly(cfg, ss[0], x);
      UsedInSeq(cfg, ss[1..], x);
      LaterUseFrom(cfg, ss, x);
      BehindIsUse(cfg, AStmt(ss[0]), x);
      assert ss == [ss[0]] + ss[1..] && ss[0] in ss;
      LaterIsUse(cfg, ss[1..], x);
    }
  }

  lemma {:induction false} CollectedCasesExactly(cfg: Config, cs: seq<Case>, x: string)
    ensures x in CollectedCases(cfg, cs) <==> exists c :: c in cs && c.body.Some? && HasUseAround(cfg, AStmt(c.body.value), x)
    decreases cs, 0
  {
    if cs != [] {
      if cs[0].body.Some? {
        assert cs[0].body.value < cs[0];
        CollectedExactly(cfg, cs[0].body.value, x);
      }
      CollectedCasesExactly(cfg, cs[1..], x);
      assert cs == [cs[0]] + cs[1..] && cs[0] in cs;
    }
  }

  // ---------------------------------------------------------------- declarations in front

  lemma StepInFront(cfg: Config, n: Part, i: nat, d: Place)
    requires Step(n, i).Some? && !IsMatch(cfg, n)
    requires IsBlock(n) ==> forall j: nat | j < i && Step(n, j).Some? :: !HasMatch(cfg, Step(n, j).value)
    requires InFront(cfg, Step(n, i).value, d)
    ensures InFront(cfg, n, [i] + d)
  {
    assert ([i] + d)[1..] == d;
    forall q: Place | MatchAt(cfg, n, q) ensures !AtOrBehind(n, [i] + d, q) {
      assert q != [];
      assert MatchAt(cfg, Step(n, q[0]).value, q[1..]);
    }
  }

  lemma InFrontFrom(cfg: Config, n: Part, d: Place)
    requires At(n, d).Some? && InFront(cfg, n, d) && d != []
    ensures InFront(cfg, Step(n, d[0]).value, d[1..])
    ensures IsBlock(n) ==> forall j: nat | j < d[0] && Step(n, j).Some? :: !HasMatch(cfg, Step(n, j).value)
  {
    var i := d[0];
    var c := Step(n, i).value;
    forall q: Place | MatchAt(cfg, c, q) ensures !AtOrBehind(c, d[1..], q) {
      AtStep(n, i, q);
      assert MatchAt(cfg, n, [i] + q) && ([i] + q)[1..] == q;
      assert !AtOrBehind(n, d, [i] + q);
    }
    if IsBlock(n) {
      forall j: nat | j < i && Step(n, j).Some? ensures !HasMatch(cfg, Step(n, j).value) {
        if HasMatch(cfg, Step(n, j).value) { BehindComponent(cfg, n, j, d); }
      }
    }
  }

  lemma BehindComponent(cfg: Config, n: Part, j: nat, d: Place)
    requires IsBlock(n) && d != [] && j < d[0] && Step(n, j).Some? && HasMatch(cfg, Step(n, j).value)
    ensures !InFront(cfg, n, d)
  {
    var q: Place :| MatchAt(cfg, Step(n, j).value, q);
    AtStep(n, j, q);
    assert MatchAt(cfg, n, [j] + q) && AtOrBehind(n, d, [j] + q);
  }

  lemma InFrontInPart(cfg: Config, n: Part, name: Name)
    requires !IsMatch(cfg, n) && !IsBlock(n) && n != AStmt(Decl(name))
    ensures HasDeclInFront(cfg, n, name) <==> exists i: nat :: Step(n, i).Some? && HasDeclInFront(cfg, Step(n, i).value, name)
  {
    if d: Place :| DeclaredAt(n, d, name) && InFront(cfg, n, d) {
      InFrontFrom(cfg, n, d);
      assert DeclaredAt(Step(n, d[0]).value, d[1..], name);
    }
    if i: nat :| Step(n, i).Some? && HasDeclInFront(cfg, Step(n, i).value, name) {
      var d: Place :| DeclaredAt(Step(n, i).value, d, name) && InFront(cfg, Step(n, i).value, d);
      AtStep(n, i, d);
      StepInFront(cfg, n, i, d);
      assert DeclaredAt(n, [i] + d, name);
    }
  }

  ghost predicate FrontDeclAt(cfg: Config, ss: seq<Stmt>, i: nat, name: Name) {
    && i < |ss| && HasDeclInFront(cfg, AStmt(ss[i]), name)
    && forall j | 0 <= j < i :: !HasMatch(cfg, AStmt(ss[j]))
  }

  lemma InFrontInBlock(cfg: Config, s: Stmt, name: Name)
    requires s.Block? && !cfg.matches(s)
    ensures HasDeclInFront(cfg, AStmt(s), name) <==> exists i: nat :: FrontDeclAt(cfg, s.components, i, name)
  {
    var n := AStmt(s);
    if d: Place :| DeclaredAt(n, d, name) && InFront(cfg, n, d) {
      InFrontFrom(cfg, n, d);
      assert DeclaredAt(Step(n, d[0]).value, d[1..], name);
      forall j | 0 <= j < d[0] ensures !HasMatch(cfg, AStmt(s.components[j])) {
        assert Step(n, j) == Some(AStmt(s.components[j]));
      }
      assert FrontDeclAt(cfg, s.components, d[0], name);
    }
    if i: nat :| FrontDeclAt(cfg, s.components, i, name) {
      var c := AStmt(s.components[i]);
      var d: Place :| DeclaredAt(c, d, name) && InFront(cfg, c, d);
      AtStep(n, i, d);
      StepInFront(cfg, n, i, d);
      assert DeclaredAt(n, [i] + d, name);
    }
  }

  lemma FrontDeclFrom(cfg: Config, ss: seq<Stmt>, name: Name)
    requires ss != []
    ensures (exists i: nat :: FrontDeclAt(cfg, ss, i, name)) <==>
              || HasDeclInFront(cfg, AStmt(ss[0]), name)
              || (!HasMatch(cfg, AStmt(ss[0])) && exists i: nat :: FrontDeclAt(cfg, ss[1..], i, name))
  {
    if i: nat :| FrontDeclAt(cfg, ss, i, name) {
      if i > 0 {
        forall j | 0 <= j < i - 1 ensures !HasMatch(cfg, AStmt(ss[1..][j])) { assert ss[1..][j] == ss[j + 1]; }
        assert FrontDeclAt(cfg, ss[1..], i - 1, name);
      }
    }
    if HasDeclInFront(cfg, AStmt(ss[0]), name) { assert FrontDeclAt(cfg, ss, 0, name); }
    if !HasMatch(cfg, AStmt(ss[0])) {
      if i: nat :| FrontDeclAt(cfg, ss[1..], i, name) {
        forall j | 0 <= j < i + 1 ensures !HasMatch(cfg, AStmt(ss[j])) {
          if j > 0 { assert ss[1..][j - 1] == ss[j]; }
        }
        assert FrontDeclAt(cfg, ss, i + 1, name);
      }
    }
  }

  lemma WithoutMatch(cfg: Config, n: Part, name: Name)
    requires !HasMatch(cfg, n)
    ensures HasDeclInFront(cfg, n, name) <==> HasDecl(n, name)
  {
    if d: Place :| DeclaredAt(n, d, name) {
      assert forall q: Place :: !MatchAt(cfg, n, q);
      assert DeclaredAt(n, d, name) && InFront(cfg, n, d);
    }
  }

  /** `InBefore` says that some declaration is not at or behind any match. */
  lemma {:induction false} InBeforeExactly(cfg: Config, s: Stmt, x: string)
    ensures InBefore(cfg, s, x) <==> HasDeclInFront(cfg, AStmt(s), Source(x))
    decreases s, 1
  {
    var n, name := AStmt(s), Source(x);
    ContainsExactly(cfg, s);
    DeclaredExactly(s, name);
    if !Contains(cfg, s) { WithoutMatch(cfg, n, name); }
    else if cfg.matches(s) { assert MatchAt(cfg, n, []); }
    else {
      match s
      case Block(_, components) =>
        InFrontInBlock(cfg, s, name);
        InBeforeSeqExactly(cfg, components, x);
      case If(_, e, t, f) =>
        InFrontInPart(cfg, n, name);
        NothingInExpr(cfg, e, name);
        InBeforeExactly(cfg, t, x);
        if f.Some? { InBeforeExactly(cfg, f.value, x); }
        IfSteps(s, part => HasDeclInFront(cfg, part, name));
      case Switch(_, e, cases) =>
        InFrontInPart(cfg, n, name);
        NothingInExpr(cfg, e, name);
        InBeforeCasesExactly(cfg, cases, x);
        SwitchSteps(s, part => HasDeclInFront(cfg, part, name));
      case _ =>
    }
  }

  lemma {:induction false} InBeforeSeqExactly(cfg: Config, ss: seq<Stmt>, x: string)
    ensures InBeforeSeq(cfg, ss, x) <==> exists i: nat :: FrontDeclAt(cfg, ss, i, Source(x))
    decreases ss, 0
  {
    if ss != [] {
      InBeforeExactly(cfg, ss[0], x);
      ContainsExactly(cfg, ss[0]);
      InBeforeSeqExactly(cfg, ss[1..], x);
      FrontDeclFrom(cfg, ss, Source(x));
    }
  }

  lemma {:induction false} InBeforeCasesExactly(cfg: Config, cs: seq<Case>, x: string)
    ensures InBeforeCases(cfg, cs, x) <==>
              exists c :: c in cs && c.body.Some? && HasDeclInFront(cfg, AStmt(c.body.value), Source(x))
    decreases cs, 0
  {
    if cs != [] {
      if cs[0].body.Some? {
        assert cs[0].body.value < cs[0];
        InBeforeExactly(cfg, cs[0].body.value, x);
      }
      InBeforeCasesExactly(cfg, cs[1..], x);
      assert cs == [cs[0]] + cs[1..] && cs[0] in cs;
    }
  }

  // ---------------------------------------------------------------- the promise

  /** A declaration of `x` is left in `before`, at any place, although `after` has a use of `x`. */
  ghost predicate Missed(cfg: Config, r: SplitResult, x: string)
    requires r.after.Some?
  {
    r.before.Some? && HasDecl(AStmt(r.before.value), Source(x)) && HasUse(cfg, AStmt(r.after.value), x)
  }

  /**
   The header promises that declarations `after` would no longer see are hoisted. One is
   missed exactly if the original has a use at or behind a match, and a declaration before the cut
   that stays: when the outermost block around it is cut, neither that block's first component with a
   match nor an earlier branch has collected the name.
   */
  lemma HoistingMissesExactly(cfg: Config, root: Stmt, firstName: nat, x: string)
    requires Placed(root) && Contains(cfg, root) && !MatchesRoot(cfg, root)
    ensures var r := SplitRoot(cfg, root, firstName);
            && r.after.Some?
            && (Missed(cfg, r, x) <==> Stays(cfg, root, {}, x) && HasUseBehind(cfg, AStmt(root), x))
  {
    var st := State(firstName, {});
    SplitFindsMatch(cfg, root, st);
    SplitKeepsBefore(cfg, root, st);
    BeforeDecls(cfg, root, st, x);
    AfterUses(cfg, root, st, x);
    var r := SplitRoot(cfg, root, firstName);
    NeededExactly(cfg, r.after.value, x);
    UsedAfterExactly(cfg, root, x);
    if r.before.Some? { DeclaredExactly(r.before.value, Source(x)); }
  }

  /** Uses behind the first component with a match. */
  function UsesBehind(cfg: Config, ss: seq<Stmt>): set<string> {
    if ss == [] then {} else if Contains(cfg, ss[0]) then NeededBySeq(cfg, ss[1..]) else UsesBehind(cfg, ss[1..])
  }

  /** All uses in `after` are collected by the end. */
  lemma {:induction false} UsesAreCollected(cfg: Config, s: Stmt, x: string)
    requires UsedAfter(cfg, s, x)
    ensures x in Collected(cfg, s)
    decreases s, 1
  {
    if !cfg.matches(s) {
      match s
      case Block(_, components) => UsesAreCollectedSeq(cfg, components, x);
      case If(_, _, t, f) =>
        if UsedAfter(cfg, t, x) { UsesAreCollected(cfg, t, x); } else { UsesAreCollected(cfg, f.value, x); }
      case Switch(_, _, cases) => UsesAreCollectedCases(cfg, cases, x);
      case _ =>
    }
  }

  lemma {:induction false} UsesAreCollectedSeq(cfg: Config, ss: seq<Stmt>, x: string)
    requires UsedAfterSeq(cfg, ss, x)
    ensures x in CollectedSeq(cfg, ss)
    ensures x in CollectedFirst(cfg, ss) || x in UsesBehind(cfg, ss)
    decreases ss, 0
  {
    if !Contains(cfg, ss[0]) {
      UsesAreCollectedSeq(cfg, ss[1..], x);
    } else if UsedAfter(cfg, ss[0], x) {
      UsesAreCollected(cfg, ss[0], x);
    }
  }

  lemma {:induction false} UsesAreCollectedCases(cfg: Config, cases: seq<Case>, x: string)
    requires UsedAfterCases(cfg, cases, x)
    ensures x in CollectedCases(cfg, cases)
    decreases cases, 0
  {
    if cases[0].body.Some? && UsedAfter(cfg, cases[0].body.value, x) {
      assert cases[0].body.value < cases[0];
      UsesAreCollected(cfg, cases[0].body.value, x);
    } else {
      UsesAreCollectedCases(cfg, cases[1..], x);
    }
  }

  lemma {:induction false} UsedBehind(cfg: Config, ss: seq<Stmt>, x: string)
    requires x in UsesBehind(cfg, ss)
    ensures UsedAfterSeq(cfg, ss, x)
  {
    if !Contains(cfg, ss[0]) { UsedBehind(cfg, ss[1..], x); }
  }

  /** For a block, in short: a declaration in front of the cut is missed exactly if the name is used
      behind the first component with a match, and that component does not collect it. */
  lemma BlockMissesExactly(cfg: Config, root: Stmt, firstName: nat, x: string)
    requires root.Block? && Placed(root) && Contains(cfg, root) && !MatchesRoot(cfg, root)
    ensures var r := SplitRoot(cfg, root, firstName);
            && r.after.Some?
            && (Missed(cfg, r, x) <==>
                  && HasDeclInFront(cfg, AStmt(root), Source(x))
                  && x in UsesBehind(cfg, root.components)
                  && x !in CollectedFirst(cfg, root.components))
  {
    HoistingMissesExactly(cfg, root, firstName, x);
    UsedAfterExactly(cfg, root, x);
    InBeforeExactly(cfg, root, x);
    if UsedAfterSeq(cfg, root.components, x) { UsesAreCollectedSeq(cfg, root.components, x); }
    if x in UsesBehind(cfg, root.components) { UsedBehind(cfg, root.components, x); }
  }

  /** `{ bit<8> x; match; use(x); }`: the declaration of `x` stays in `before`, its use is in `after`. */
  lemma HoistingMissesTail(cfg: Config)
    requires forall s: Stmt :: cfg.matches(s) <==> s == Leaf(1, {})
    requires cfg.resolves("x", 2)
    ensures var s := Block(0, [Decl(Source("x")), Leaf(1, {}), Leaf(2, {"x"})]);
            var r := SplitRoot(cfg, s, 0);
            && r.before == Some(Block(0, [Decl(Source("x"))]))
            && r.after == Some(Block(0, [Leaf(1, {}), Leaf(2, {"x"})]))
            && r.hoisted == [] && HasUse(cfg, AStmt(r.after.value), "x")
  {
    var s := Block(0, [Decl(Source("x")), Leaf(1, {}), Leaf(2, {"x"})]);
    var st := State(0, {});
    var (r1, st1) := Split(cfg, s.components[1], st);
    assert r1 == SplitResult(None, Some(Leaf(1, {})), []);
    assert st1.needed == {};
    assert SplitFrom(cfg, s, 1, st) == CutBlock(cfg, s, 1, r1, st1);
    assert s.components[..1] + [] == [Decl(Source("x"))];
    assert [Decl(Source("x"))][1..] == [];
    assert Filter({}, Block(0, [Decl(Source("x"))])) == Block(0, [Decl(Source("x"))]);
    assert s.components[2..] == [Leaf(2, {"x"})];
    assert Dropped({}, Block(0, [Decl(Source("x"))])) == [];
    assert [Leaf(1, {})] + s.components[2..] == [Leaf(1, {}), Leaf(2, {"x"})];
    var (res, _) := CutBlock(cfg, s, 1, r1, st1);
    assert res.before == Some(Block(0, [Decl(Source("x"))]));
    assert res.after == Some(Block(0, [Leaf(1, {}), Leaf(2, {"x"})]));
    assert res.hoisted == [];
    assert Split(cfg, s.components[0], st) == (EMPTY, st);
    assert SplitFrom(cfg, s, 0, st).0 == res;
    assert SplitRoot(cfg, s, 0) == res;
    var tail := [Leaf(1, {}), Leaf(2, {"x"})];
    assert tail[1..] == [Leaf(2, {"x"})] && tail[1..][1..] == [];
    assert "x" in NeededNames(cfg, {"x"}, 2);
    assert "x" in Needed(cfg, Leaf(2, {"x"}));
    assert "x" in NeededBySeq(cfg, tail[1..]);
    assert "x" in NeededBySeq(cfg, tail);
    NeededExactly(cfg, res.after.value, "x");
  }
}
