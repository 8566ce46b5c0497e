/** What rewriting makes of a tree, node by node: which nodes of the result there are, and where in the
    original they come from. */
module Rewriting {
  import opened Wrappers
  import opened Dag
  import opened Memo

  /** From a node to one below it, by the numbers of the children on the way. */
  type Route = seq<nat>

  function NodeAt(t: Option<Tree>, p: Route): Option<Tree>
    decreases |p|
  {
    if t.None? || p == [] then t
    else if p[0] < |t.value.kids| then NodeAt(t.value.kids[p[0]], p[1..])
    else None
  }

  // ---------------------------------------------------------------- hooks that go by tags

  /** What is to be dropped, before the children are visited or after; what it is to be called; and
      which children it is to have. */
  datatype Rules = Rules(early: string -> bool, named: string -> string, pick: (string, nat) -> seq<nat>,
                         late: string -> bool, renamed: string -> string)

  predicate PicksAll(select: seq<nat>, n: nat) {
    |select| == n && forall i | 0 <= i < n :: select[i] == i
  }

  predicate PreObeys(answer: Pre, rules: Rules, tag: string, n: nat) {
    match answer
    case DropPre => rules.early(tag)
    case KeepPre => !rules.early(tag) && rules.named(tag) == tag && PicksAll(rules.pick(tag, n), n)
    case EditPre(t, select) => !rules.early(tag) && t == rules.named(tag) && select == rules.pick(tag, n)
    case FreshPre(t, select) => !rules.early(tag) && t == rules.named(tag) && select == rules.pick(tag, n)
  }

  predicate PostObeys(answer: Post, rules: Rules, tag: string, n: nat) {
    match answer
    case DropPost => rules.late(tag)
    case KeepPost => !rules.late(tag) && rules.renamed(tag) == tag
    case EditPost(t, ss) => !rules.late(tag) && t == rules.renamed(tag) && IsIdentity(ss, n)
    case FreshPost(t, ss) => !rules.late(tag) && t == rules.renamed(tag) && IsIdentity(ss, n)
    case PromotePost(_) => false
  }

  /** The hooks follow the rules, by whichever of the ways there are to do that. */
  ghost predicate Obeys(hooks: Hooks, rules: Rules) {
    forall tag: string, kids: seq<Option<Tree>> ::
      PreObeys(hooks.pre(tag, kids), rules, tag, |kids|) && PostObeys(hooks.post(tag, kids), rules, tag, |kids|)
  }

  predicate Survives(rules: Rules, tag: string) {
    !rules.early(tag) && !rules.late(rules.named(tag))
  }

  /** In the original, `q` leads where `p` leads in the result: no node on the way is dropped, and each
      step is to the child that was picked. */
  predicate LeadsTo(rules: Rules, t: Tree, p: Route, q: Route) {
    && |p| == |q|
    && (forall k | 0 <= k <= |q| :: NodeAt(Some(t), q[..k]).Some? && Survives(rules, NodeAt(Some(t), q[..k]).value.tag))
    && (forall k | 0 <= k < |q| ::
          var n := NodeAt(Some(t), q[..k]).value;
          p[k] < |rules.pick(n.tag, |n.kids|)| && q[k] == rules.pick(n.tag, |n.kids|)[p[k]])
  }

  lemma LeadsOnwards(rules: Rules, t: Tree, i: nat, p: Route, j: nat, q: Route)
    requires j < |t.kids| && t.kids[j].Some? && Survives(rules, t.tag)
    requires i < |rules.pick(t.tag, |t.kids|)| && rules.pick(t.tag, |t.kids|)[i] == j
    ensures LeadsTo(rules, t, [i] + p, [j] + q) <==> LeadsTo(rules, t.kids[j].value, p, q)
  {
    var kid := t.kids[j].value;
    var q' := [j] + q;
    assert q'[1..] == q;
    forall k | 0 <= k <= |q| ensures NodeAt(Some(t), q'[..k + 1]) == NodeAt(Some(kid), q[..k]) {
      assert q'[..k + 1][1..] == q[..k];
    }
    if LeadsTo(rules, t, [i] + p, q') {
      forall k | 0 <= k <= |q| ensures NodeAt(Some(kid), q[..k]).Some? && Survives(rules, NodeAt(Some(kid), q[..k]).value.tag) {
        assert NodeAt(Some(t), q'[..k + 1]).Some?;
      }
      forall k | 0 <= k < |q| ensures var n := NodeAt(Some(kid), q[..k]).value;
          p[k] < |rules.pick(n.tag, |n.kids|)| && q[k] == rules.pick(n.tag, |n.kids|)[p[k]] {
        assert NodeAt(Some(t), q'[..k + 1]).Some? && q'[k + 1] == q[k] && ([i] + p)[k + 1] == p[k];
      }
    }
    if LeadsTo(rules, kid, p, q) {
      forall k | 0 <= k <= |q'| ensures NodeAt(Some(t), q'[..k]).Some? && Survives(rules, NodeAt(Some(t), q'[..k]).value.tag) {
        if k > 0 { assert NodeAt(Some(kid), q[..k - 1]).Some?; }
      }
      forall k | 0 <= k < |q'| ensures var n := NodeAt(Some(t), q'[..k]).value;
          ([i] + p)[k] < |rules.pick(n.tag, |n.kids|)| && q'[k] == rules.pick(n.tag, |n.kids|)[([i] + p)[k]] {
        if k > 0 { assert NodeAt(Some(kid), q[..k - 1]).Some?; }
      }
    }
  }

  /** The child of the result at `i`. */
  function Picked(hooks: Hooks, rules: Rules, t: Tree, i: nat): Option<Tree>
    requires i < |rules.pick(t.tag, |t.kids|)|
  {
    var j := rules.pick(t.tag, |t.kids|)[i];
    if j < |t.kids| && t.kids[j].Some? then Rewrite(hooks, t.kids[j].value) else None
  }

  lemma PostRenames(hooks: Hooks, rules: Rules, tag: string, kids: seq<Option<Tree>>)
    requires Obeys(hooks, rules)
    ensures ApplyPost(hooks, tag, kids) == if rules.late(tag) then None else Some(Node(rules.renamed(tag), kids))
  {
    assert PostObeys(hooks.post(tag, kids), rules, tag, |kids|);
    match hooks.post(tag, kids)
    case EditPost(_, ss) => PlantAllIdentity(ss, kids, 0); assert kids[0..] == kids;
    case FreshPost(_, ss) => PlantAllIdentity(ss, kids, 0); assert kids[0..] == kids;
    case _ =>
  }

  lemma RewriteNode(hooks: Hooks, rules: Rules, t: Tree)
    requires Obeys(hooks, rules)
    ensures Rewrite(hooks, t).Some? <==> Survives(rules, t.tag)
    ensures Survives(rules, t.tag) ==>
              var r := Rewrite(hooks, t).value;
              && r.tag == rules.renamed(rules.named(t.tag))
              && |r.kids| == |rules.pick(t.tag, |t.kids|)|
              && forall i | 0 <= i < |r.kids| :: r.kids[i] == Picked(hooks, rules, t, i)
  {
    var answer := hooks.pre(t.tag, t.kids);
    assert PreObeys(answer, rules, t.tag, |t.kids|);
    if !answer.DropPre? {
      var (tag, kids) := Answered(answer, t.tag, RewriteKids(hooks, t.kids));
      PostRenames(hooks, rules, tag, kids);
    }
  }

  /** The nodes of the result are those the rules lead to, with the tags they give. */
  lemma {:induction false} RewriteAt(hooks: Hooks, rules: Rules, t: Tree, p: Route)
    requires Obeys(hooks, rules)
    ensures NodeAt(Rewrite(hooks, t), p).Some? <==> exists q: Route :: LeadsTo(rules, t, p, q)
    ensures forall q: Route | LeadsTo(rules, t, p, q) ::
              && NodeAt(Some(t), q).Some? && NodeAt(Rewrite(hooks, t), p).Some?
              && NodeAt(Rewrite(hooks, t), p).value.tag == rules.renamed(rules.named(NodeAt(Some(t), q).value.tag))
    decreases |p|
  {
    RewriteNode(hooks, rules, t);
    if p == [] {
      if Survives(rules, t.tag) { assert LeadsTo(rules, t, [], []); }
      forall q: Route | LeadsTo(rules, t, p, q) ensures q == [] && Survives(rules, t.tag) {
        assert NodeAt(Some(t), q[..0]) == Some(t);
      }
    } else {
      forall q: Route | LeadsTo(rules, t, p, q) ensures GoesTo(hooks, rules, t, p, q) {
        RouteGoes(hooks, rules, t, p, q);
      }
      if NodeAt(Rewrite(hooks, t), p).Some? {
        var q := RouteBack(hooks, rules, t, p);
      }
    }
  }

  predicate GoesTo(hooks: Hooks, rules: Rules, t: Tree, p: Route, q: Route) {
    && NodeAt(Some(t), q).Some? && NodeAt(Rewrite(hooks, t), p).Some?
    && NodeAt(Rewrite(hooks, t), p).value.tag == rules.renamed(rules.named(NodeAt(Some(t), q).value.tag))
  }

  lemma FirstStep(rules: Rules, t: Tree, p: Route, q: Route)
    requires p != [] && LeadsTo(rules, t, p, q)
    ensures Survives(rules, t.tag) && q[0] < |t.kids| && t.kids[q[0]].Some?
    ensures p[0] < |rules.pick(t.tag, |t.kids|)| && q[0] == rules.pick(t.tag, |t.kids|)[p[0]]
  {
    assert NodeAt(Some(t), q[..0]) == Some(t);
    assert q[..1] == [q[0]] && q[..1][1..] == [];
    assert NodeAt(Some(t), q[..1]).Some?;
  }

  lemma RewriteChild(hooks: Hooks, rules: Rules, t: Tree, i: nat, p: Route)
    requires Obeys(hooks, rules) && Survives(rules, t.tag) && i < |rules.pick(t.tag, |t.kids|)|
    ensures NodeAt(Rewrite(hooks, t), [i] + p) == NodeAt(Picked(hooks, rules, t, i), p)
  {
    RewriteNode(hooks, rules, t);
    assert ([i] + p)[1..] == p;
  }

  lemma NodeBelow(t: Tree, j: nat, q: Route)
    requires j < |t.kids|
    ensures NodeAt(Some(t), [j] + q) == NodeAt(t.kids[j], q)
  {
    assert ([j] + q)[1..] == q;
  }

  lemma RouteGoes(hooks: Hooks, rules: Rules, t: Tree, p: Route, q: Route)
    requires Obeys(hooks, rules) && p != [] && LeadsTo(rules, t, p, q)
    ensures GoesTo(hooks, rules, t, p, q)
    decreases |p|, 0
  {
    var i, j, p', q' := p[0], q[0], p[1..], q[1..];
    FirstStep(rules, t, p, q);
    assert p == [i] + p' && q == [j] + q';
    LeadsOnwards(rules, t, i, p', j, q');
    RewriteChild(hooks, rules, t, i, p');
    NodeBelow(t, j, q');
    var kid := t.kids[j].value;
    assert GoesTo(hooks, rules, kid, p', q') by { RewriteAt(hooks, rules, kid, p'); }
  }

  lemma RouteBack(hooks: Hooks, rules: Rules, t: Tree, p: Route) returns (q: Route)
    requires Obeys(hooks, rules) && p != [] && NodeAt(Rewrite(hooks, t), p).Some?
    ensures LeadsTo(rules, t, p, q)
    decreases |p|, 0
  {
    RewriteNode(hooks, rules, t);
    var i := p[0];
    var j := rules.pick(t.tag, |t.kids|)[i];
    RewriteAt(hooks, rules, t.kids[j].value, p[1..]);
    var q': Route :| LeadsTo(rules, t.kids[j].value, p[1..], q');
    assert p == [i] + p[1..];
    LeadsOnwards(rules, t, i, p[1..], j, q');
    q := [j] + q';
  }

  // ---------------------------------------------------------------- in a traversal

  /** Hooks that go by tags do not look at the children, so forwarding makes no difference to them. */
  lemma RulesAreSteady(hooks: Hooks, rules: Rules)
    requires Obeys(hooks, rules)
    ensures Steady(hooks)
  {
    forall tag: string, kids: seq<Option<Tree>>, more: seq<Option<Tree>> | PartlyRewritten(hooks, kids, more)
      ensures Outcome(hooks, tag, kids, hooks.pre(tag, more)) == Outcome(hooks, tag, kids, hooks.pre(tag, kids))
    {
      SameOutcome(hooks, rules, tag, kids, hooks.pre(tag, more), hooks.pre(tag, kids));
    }
  }

  lemma SameOutcome(hooks: Hooks, rules: Rules, tag: string, kids: seq<Option<Tree>>, a: Pre, b: Pre)
    requires Obeys(hooks, rules) && PreObeys(a, rules, tag, |kids|) && PreObeys(b, rules, tag, |kids|)
    ensures Outcome(hooks, tag, kids, a) == Outcome(hooks, tag, kids, b)
  {
    if !a.DropPre? {
      AnswersAlike(rules, a, tag, RewriteKids(hooks, kids));
      AnswersAlike(rules, b, tag, RewriteKids(hooks, kids));
    }
  }

  lemma AnswersAlike(rules: Rules, a: Pre, tag: string, kids: seq<Option<Tree>>)
    requires PreObeys(a, rules, tag, |kids|) && !a.DropPre?
    ensures Answered(a, tag, kids) == (rules.named(tag), Select(kids, rules.pick(tag, |kids|)))
  {
    if a.KeepPre? { assert Select(kids, rules.pick(tag, |kids|)) == kids; }
  }

  /** So a traversal, forwarding or not, makes of a DAG just what the rules say. */
  lemma VisitAt(hooks: Hooks, rules: Rules, forward: bool, h: Heap, n: Id, p: Route)
    requires Acyclic(h) && n < |h| && Obeys(hooks, rules)
    ensures var t, r := Unfold(h, n), Visit(hooks, forward, h, n, map[]).0;
            && (NodeAt(r, p).Some? <==> exists q: Route :: LeadsTo(rules, t, p, q))
            && forall q: Route | LeadsTo(rules, t, p, q) ::
                 && NodeAt(Some(t), q).Some? && NodeAt(r, p).Some?
                 && NodeAt(r, p).value.tag == rules.renamed(rules.named(NodeAt(Some(t), q).value.tag))
  {
    RulesAreSteady(hooks, rules);
    VisitFromScratch(hooks, forward, h, n);
    RewriteAt(hooks, rules, Unfold(h, n), p);
  }

  // ---------------------------------------------------------------- deleting

  ghost predicate Deletes(hooks: Hooks, dropped: set<string>) {
    forall tag: string, kids: seq<Option<Tree>> ::
      hooks.pre(tag, kids) == KeepPre && hooks.post(tag, kids) == if tag in dropped then DropPost else KeepPost
  }

  /** No node on the way, the last included, has such a tag. */
  predicate Spared(t: Tree, p: Route, dropped: set<string>) {
    forall k | 0 <= k <= |p| && NodeAt(Some(t), p[..k]).Some? :: NodeAt(Some(t), p[..k]).value.tag !in dropped
  }

  function Deletion(dropped: set<string>): Rules {
    Rules(_ => false, tag => tag, (_, n: nat) => seq(n, i => i), tag => tag in dropped, tag => tag)
  }

  lemma {:induction false} WayThere(t: Option<Tree>, p: Route, k: nat)
    requires NodeAt(t, p).Some? && k <= |p|
    ensures NodeAt(t, p[..k]).Some?
    decreases |p|
  {
    if k > 0 {
      WayThere(t.value.kids[p[0]], p[1..], k - 1);
      assert p[..k][1..] == p[1..][..k - 1];
    }
  }

  lemma SparedLeads(dropped: set<string>, t: Tree, p: Route, q: Route)
    ensures LeadsTo(Deletion(dropped), t, p, q) <==> p == q && NodeAt(Some(t), q).Some? && Spared(t, q, dropped)
  {
    if LeadsTo(Deletion(dropped), t, p, q) {
      assert q[..|q|] == q;
      forall k | 0 <= k < |q| ensures p[k] == q[k] {
        var n := NodeAt(Some(t), q[..k]).value;
        assert Deletion(dropped).pick(n.tag, |n.kids|) == seq(|n.kids|, i => i);
      }
    }
    if p == q && NodeAt(Some(t), q).Some? && Spared(t, q, dropped) {
      forall k | 0 <= k <= |q| ensures NodeAt(Some(t), q[..k]).Some? { WayThere(Some(t), q, k); }
      forall k | 0 <= k < |q| ensures q[k] < |NodeAt(Some(t), q[..k]).value.kids| { StepInside(t, q, k); }
    }
  }

  lemma {:induction false} StepInside(t: Tree, q: Route, k: nat)
    requires k < |q| && NodeAt(Some(t), q).Some? && NodeAt(Some(t), q[..k]).Some?
    ensures q[k] < |NodeAt(Some(t), q[..k]).value.kids|
    decreases k
  {
    if k > 0 {
      WayThere(Some(t), q, 1);
      NodeBelow(t, q[0], q[..k][1..]);
      assert q[..k] == [q[0]] + q[..k][1..] && q[..k][1..] == q[1..][..k - 1];
      StepInside(t.kids[q[0]].value, q[1..], k - 1);
    }
  }

  /** A transform whose postorder hook deletes nodes by their tags: what is left are the nodes that have
      no such tag and are below none that has, each where it was. */
  lemma DeletesExactly(hooks: Hooks, dropped: set<string>, forward: bool, h: Heap, n: Id, p: Route)
    requires Acyclic(h) && n < |h| && Deletes(hooks, dropped)
    ensures var t, r := Unfold(h, n), Visit(hooks, forward, h, n, map[]).0;
            && (NodeAt(r, p).Some? <==> NodeAt(Some(t), p).Some? && Spared(t, p, dropped))
            && (NodeAt(r, p).Some? ==> NodeAt(r, p).value.tag == NodeAt(Some(t), p).value.tag)
  {
    var t := Unfold(h, n);
    VisitAt(hooks, Deletion(dropped), forward, h, n, p);
    forall q: Route ensures LeadsTo(Deletion(dropped), t, p, q) <==> p == q && NodeAt(Some(t), q).Some? && Spared(t, q, dropped) {
      SparedLeads(dropped, t, p, q);
    }
  }

  // ---------------------------------------------------------------- unwrapping

  ghost predicate Promotes(hooks: Hooks, wrappers: set<string>) {
    forall tag: string, kids: seq<Option<Tree>> ::
      hooks.pre(tag, kids) == KeepPre && hooks.post(tag, kids) == if tag in wrappers then PromotePost(0) else KeepPost
  }

  /** Nodes of these kinds have one child, which is not null. */
  predicate Wrapped(t: Tree, wrappers: set<string>)
    decreases t, 1
  {
    && (t.tag in wrappers ==> |t.kids| == 1 && t.kids[0].Some?)
    && WrappedAll(t.kids, wrappers)
  }

  predicate WrappedAll(kids: seq<Option<Tree>>, wrappers: set<string>)
    decreases kids, 0
  {
    kids == [] || (WrappedOption(kids[0], wrappers) && WrappedAll(kids[1..], wrappers))
  }

  predicate WrappedOption(t: Option<Tree>, wrappers: set<string>)
    decreases t, 0
  {
    t.Some? ==> Wrapped(t.value, wrappers)
  }

  /** The tags of all nodes, parents before children. */
  function Listing(t: Option<Tree>): seq<string>
    decreases t, 1
  {
    if t.None? then [] else [t.value.tag] + ListingAll(t.value.kids)
  }

  function ListingAll(kids: seq<Option<Tree>>): seq<string>
    decreases kids, 0
  {
    if kids == [] then [] else Listing(kids[0]) + ListingAll(kids[1..])
  }

  function Without(s: seq<string>, tags: set<string>): seq<string> {
    if s == [] then [] else (if s[0] in tags then [] else [s[0]]) + Without(s[1..], tags)
  }

  lemma {:induction false} WithoutAppend(a: seq<string>, b: seq<string>, tags: set<string>)
    ensures Without(a + b, tags) == Without(a, tags) + Without(b, tags)
  {
    if a == [] {
      assert a + b == b;
    } else {
      assert (a + b)[1..] == a[1..] + b;
      WithoutAppend(a[1..], b, tags);
    }
  }

  /** A transform that puts the child of such a node in its place loses these nodes and nothing else, and
      keeps the others in order. */
  lemma {:induction false} PromotingUnwraps(hooks: Hooks, wrappers: set<string>, t: Tree)
    requires Promotes(hooks, wrappers) && Wrapped(t, wrappers)
    ensures Rewrite(hooks, t).Some? && Listing(Rewrite(hooks, t)) == Without(Listing(Some(t)), wrappers)
    decreases t, 1
  {
    var kids := RewriteKids(hooks, t.kids);
    PromotingUnwrapsAll(hooks, wrappers, t.kids);
    WithoutAppend([t.tag], ListingAll(t.kids), wrappers);
    assert Without([t.tag], wrappers) == if t.tag in wrappers then [] else [t.tag];
    assert hooks.pre(t.tag, t.kids) == KeepPre;
    if t.tag in wrappers {
      assert t.kids[1..] == [] && kids[1..] == [];
      assert ListingAll(kids) == Listing(kids[0]) + [];
      assert WrappedOption(t.kids[0], wrappers);
      assert t.kids[0].value < t;
      PromotingUnwraps(hooks, wrappers, t.kids[0].value);
    }
  }

  lemma {:induction false} PromotingUnwrapsAll(hooks: Hooks, wrappers: set<string>, kids: seq<Option<Tree>>)
    requires Promotes(hooks, wrappers) && WrappedAll(kids, wrappers)
    ensures ListingAll(RewriteKids(hooks, kids)) == Without(ListingAll(kids), wrappers)
    decreases kids, 0
  {
    if kids != [] {
      if kids[0].Some? {
        assert kids[0].value < kids[0];
        PromotingUnwraps(hooks, wrappers, kids[0].value);
      }
      PromotingUnwrapsAll(hooks, wrappers, kids[1..]);
      WithoutAppend(Listing(kids[0]), ListingAll(kids[1..]), wrappers);
      var r := RewriteKids(hooks, kids);
      assert r[1..] == RewriteKids(hooks, kids[1..]);
      assert ListingAll(r) == Listing(r[0]) + ListingAll(r[1..]);
      assert Listing(r[0]) == Without(Listing(kids[0]), wrappers);
    }
  }

  /** So does a traversal, whatever is shared. */
  lemma UnwrapsExactly(hooks: Hooks, wrappers: set<string>, forward: bool, h: Heap, n: Id)
    requires Acyclic(h) && n < |h| && Promotes(hooks, wrappers) && Wrapped(Unfold(h, n), wrappers)
    ensures var r := Visit(hooks, forward, h, n, map[]).0;
            r.Some? && Listing(r) == Without(Listing(Some(Unfold(h, n))), wrappers)
  {
    assert Steady(hooks);
    VisitFromScratch(hooks, forward, h, n);
    PromotingUnwraps(hooks, wrappers, Unfold(h, n));
  }

  // ---------------------------------------------------------------- fresh trees

  /** Where a route through fresh nodes comes to: a fresh node, or a child and the rest of the route. */
  function Follow(s: Shape, p: Route): (Shape, Route)
    decreases |p|
  {
    if s.Child? || p == [] || p[0] >= |s.kids| then (s, p) else Follow(s.kids[p[0]], p[1..])
  }

  lemma {:induction false} PlantedAll(ss: seq<Shape>, kids: seq<Option<Tree>>, i: nat)
    requires i < |ss|
    ensures PlantAll(ss, kids)[i] == Plant(ss[i], kids)
    decreases i
  {
    if i > 0 { PlantedAll(ss[1..], kids, i - 1); }
  }

  /** What is planted has the fresh nodes where they were put, and below them the children. */
  lemma {:induction false} PlantedAt(s: Shape, kids: seq<Option<Tree>>, p: Route)
    ensures var (there, rest) := Follow(s, p);
            match there
            case Child(i) => NodeAt(Plant(s, kids), p) == NodeAt(if i < |kids| then kids[i] else None, rest)
            case Build(tag, ss) =>
              && (NodeAt(Plant(s, kids), p).Some? <==> rest == [])
              && (rest == [] ==> NodeAt(Plant(s, kids), p).value.tag == tag
                                 && |NodeAt(Plant(s, kids), p).value.kids| == |ss|)
    decreases |p|
  {
    if s.Build? && p != [] && p[0] < |s.kids| {
      PlantedAll(s.kids, kids, p[0]);
      PlantedAt(s.kids[p[0]], kids, p[1..]);
    }
  }
}
