/** The memoised traversal on trees: what a transform makes of a DAG when it visits each node once,
    and when that is the plain rewriting of the unfolded tree. */
module Memo {
  import opened Wrappers
  import opened Dag
  import Inspection

  /** The originals visited so far, and what they became. */
  type Finished = map<Id, Option<Tree>>

  /** A child as the preorder hook sees it. Forwarding puts the result, if it is not null, in place of
      a child that is finished. */
  function Seen(h: Heap, kid: Option<Id>, done: Finished, forward: bool): Option<Tree>
    requires Acyclic(h) && (kid.Some? ==> kid.value < |h|)
  {
    if forward && kid.Some? && kid.value in done && done[kid.value].Some? then done[kid.value] else UnfoldOption(h, kid)
  }

  function SeenKids(h: Heap, kids: seq<Option<Id>>, bound: Id, done: Finished, forward: bool): (r: seq<Option<Tree>>)
    requires Acyclic(h) && bound <= |h| && KidsBelow(kids, bound)
    ensures |r| == |kids| && forall i | 0 <= i < |kids| :: r[i] == Seen(h, kids[i], done, forward)
    decreases |kids|
  {
    if kids == [] then [] else [Seen(h, kids[0], done, forward)] + SeenKids(h, kids[1..], bound, done, forward)
  }

  /** Visiting a node: what becomes of it, and what has been visited afterwards. */
  function Visit(hooks: Hooks, forward: bool, h: Heap, n: Id, done: Finished): (r: (Option<Tree>, Finished))
    requires Acyclic(h) && n < |h|
    decreases n, 1, 0
  {
    if n in done then (done[n], done)
    else
      var answer := hooks.pre(h[n].tag, SeenKids(h, h[n].kids, n, done, forward));
      if answer.DropPre? then (None, done[n := None])
      else
        var (tag, kids) := Answered(answer, h[n].tag, h[n].kids);
        VisitBelow(hooks, forward, h, tag, kids, n, done)
  }

  function VisitBelow(hooks: Hooks, forward: bool, h: Heap, tag: string, kids: seq<Option<Id>>, n: Id, done: Finished)
    : (Option<Tree>, Finished)
    requires Acyclic(h) && n < |h| && KidsBelow(kids, n)
    decreases n, 0, |kids| + 1
  {
    var (trees, more) := VisitKids(hooks, forward, h, kids, n, done);
    var result := ApplyPost(hooks, tag, trees);
    (result, more[n := result])
  }

  function VisitKids(hooks: Hooks, forward: bool, h: Heap, kids: seq<Option<Id>>, bound: Id, done: Finished)
    : (r: (seq<Option<Tree>>, Finished))
    requires Acyclic(h) && bound <= |h| && KidsBelow(kids, bound)
    ensures |r.0| == |kids|
    decreases bound, 0, |kids|
  {
    if kids == [] then ([], done)
    else
      var (first, d1) := VisitKid(hooks, forward, h, kids[0], bound, done);
      var (rest, d2) := VisitKids(hooks, forward, h, kids[1..], bound, d1);
      ([first] + rest, d2)
  }

  function VisitKid(hooks: Hooks, forward: bool, h: Heap, kid: Option<Id>, bound: Id, done: Finished)
    : (Option<Tree>, Finished)
    requires Acyclic(h) && bound <= |h| && (kid.Some? ==> kid.value < bound)
    decreases bound, 0, 0
  {
    if kid.Some? then Visit(hooks, forward, h, kid.value, done) else (None, done)
  }

  /** What has become of the first children, and what will become of the others. */
  function Onwards(hooks: Hooks, forward: bool, h: Heap, kids: seq<Option<Id>>, bound: Id, trees: seq<Option<Tree>>, done: Finished)
    : (seq<Option<Tree>>, Finished)
    requires Acyclic(h) && bound <= |h| && KidsBelow(kids, bound)
  {
    var (rest, more) := VisitKids(hooks, forward, h, kids, bound, done);
    (trees + rest, more)
  }

  lemma OneMore(hooks: Hooks, forward: bool, h: Heap, kids: seq<Option<Id>>, i: nat, bound: Id, trees: seq<Option<Tree>>, done: Finished)
    requires Acyclic(h) && bound <= |h| && KidsBelow(kids, bound) && i < |kids|
    ensures var (tree, more) := VisitKid(hooks, forward, h, kids[i], bound, done);
            && Onwards(hooks, forward, h, kids[i..], bound, trees, done)
            == Onwards(hooks, forward, h, kids[i + 1..], bound, trees + [tree], more)
  {
    var (tree, more) := VisitKid(hooks, forward, h, kids[i], bound, done);
    var rest := VisitKids(hooks, forward, h, kids[i + 1..], bound, more).0;
    assert kids[i..][1..] == kids[i + 1..];
    assert trees + ([tree] + rest) == (trees + [tree]) + rest;
  }

  lemma OnwardsFrom(hooks: Hooks, forward: bool, h: Heap, kids: seq<Option<Id>>, bound: Id, trees: seq<Option<Tree>>, done: Finished)
    requires Acyclic(h) && bound <= |h| && KidsBelow(kids, bound)
    ensures Onwards(hooks, forward, h, kids[0..], bound, [], done) == VisitKids(hooks, forward, h, kids, bound, done)
    ensures Onwards(hooks, forward, h, kids[|kids|..], bound, trees, done) == (trees, done)
  {
    var all := VisitKids(hooks, forward, h, kids, bound, done).0;
    assert kids[0..] == kids && [] + all == all;
    assert kids[|kids|..] == [] && trees + [] == trees;
  }

  /** A visit records its result and forgets nothing. */
  lemma {:induction false} VisitRecords(hooks: Hooks, forward: bool, h: Heap, n: Id, done: Finished)
    requires Acyclic(h) && n < |h|
    ensures var (t, more) := Visit(hooks, forward, h, n, done); n in more && more[n] == t
  {
  }

  // ---------------------------------------------------------------- nodes left alone

  /** What is untouched has become itself. */
  ghost predicate KeptOk(hooks: Hooks, h: Heap, done: Finished)
    requires Acyclic(h)
  {
    forall n | n in done && n < |h| && Untouched(hooks, Unfold(h, n)) :: done[n] == Some(Unfold(h, n))
  }

  lemma {:induction false} VisitKeeps(hooks: Hooks, forward: bool, h: Heap, n: Id, done: Finished)
    requires Acyclic(h) && n < |h| && KeptOk(hooks, h, done)
    ensures var (t, more) := Visit(hooks, forward, h, n, done);
            KeptOk(hooks, h, more) && (Untouched(hooks, Unfold(h, n)) ==> t == Some(Unfold(h, n)))
    decreases n, 1, 0
  {
    if n !in done {
      var kids := h[n].kids;
      var trees := UnfoldKids(h, kids, n);
      var seen := SeenKids(h, kids, n, done, forward);
      if Untouched(hooks, Unfold(h, n)) {
        assert UntouchedKids(hooks, trees);
        forall i | 0 <= i < |kids| && kids[i].Some? ensures Untouched(hooks, Unfold(h, kids[i].value)) {
          assert trees[i] == Some(Unfold(h, kids[i].value));
          assert Untouched(hooks, trees[i].value);
        }
        assert seen == trees;
        VisitKidsKeeps(hooks, forward, h, kids, n, done);
        assert VisitKids(hooks, forward, h, kids, n, done).0 == trees;
        PostKeeps(hooks, h[n].tag, trees);
      } else {
        var answer := hooks.pre(h[n].tag, seen);
        if !answer.DropPre? { VisitKidsKeeps(hooks, forward, h, Answered(answer, h[n].tag, kids).1, n, done); }
      }
    }
  }

  lemma {:induction false} VisitKidsKeeps(hooks: Hooks, forward: bool, h: Heap, kids: seq<Option<Id>>, bound: Id, done: Finished)
    requires Acyclic(h) && bound <= |h| && KidsBelow(kids, bound) && KeptOk(hooks, h, done)
    ensures var (trees, more) := VisitKids(hooks, forward, h, kids, bound, done);
            && KeptOk(hooks, h, more)
            && forall i | 0 <= i < |kids| && (kids[i].Some? ==> Untouched(hooks, Unfold(h, kids[i].value))) ::
                 trees[i] == UnfoldOption(h, kids[i])
    decreases bound, 0, |kids|
  {
    if kids != [] {
      if kids[0].Some? { VisitKeeps(hooks, forward, h, kids[0].value, done); }
      var d1 := VisitKid(hooks, forward, h, kids[0], bound, done).1;
      VisitKidsKeeps(hooks, forward, h, kids[1..], bound, d1);
    }
  }

  // ---------------------------------------------------------------- which nodes are visited

  predicate Everywhere(n: Id) { true }

  ghost predicate KeepsAll(hooks: Hooks) {
    forall tag: string, kids: seq<Option<Tree>> :: hooks.pre(tag, kids) == KeepPre
  }

  /** What is below a visited node has been visited. */
  ghost predicate Downward(h: Heap, done: Finished)
    requires Acyclic(h)
  {
    forall n | n in done && n < |h| :: Inspection.Reached(h, Everywhere, n) <= done.Keys
  }

  /** If no preorder hook drops or replaces its argument, exactly what is reached is visited. */
  lemma {:induction false} VisitReaches(hooks: Hooks, forward: bool, h: Heap, n: Id, done: Finished)
    requires Acyclic(h) && n < |h| && KeepsAll(hooks) && Downward(h, done)
    ensures var more := Visit(hooks, forward, h, n, done).1;
            more.Keys == done.Keys + Inspection.Reached(h, Everywhere, n) && Downward(h, more)
    decreases n, 1, 0
  {
    if n !in done {
      VisitKidsReach(hooks, forward, h, h[n].kids, n, done);
      var (trees, more) := VisitKids(hooks, forward, h, h[n].kids, n, done);
      var all := Visit(hooks, forward, h, n, done).1;
      assert hooks.pre(h[n].tag, SeenKids(h, h[n].kids, n, done, forward)) == KeepPre;
      assert Visit(hooks, forward, h, n, done) == VisitBelow(hooks, forward, h, h[n].tag, h[n].kids, n, done);
      assert all == more[n := ApplyPost(hooks, h[n].tag, trees)];
      assert all.Keys == more.Keys + {n};
      forall m | m in all && m < |h| ensures Inspection.Reached(h, Everywhere, m) <= all.Keys {
        if m != n { assert m in more; }
      }
    }
  }

  lemma {:induction false} VisitKidsReach(hooks: Hooks, forward: bool, h: Heap, kids: seq<Option<Id>>, bound: Id, done: Finished)
    requires Acyclic(h) && bound <= |h| && KidsBelow(kids, bound) && KeepsAll(hooks) && Downward(h, done)
    ensures var more := VisitKids(hooks, forward, h, kids, bound, done).1;
            more.Keys == done.Keys + Inspection.ReachedFrom(h, Everywhere, kids, bound) && Downward(h, more)
    decreases bound, 0, |kids|
  {
    if kids != [] {
      if kids[0].Some? { VisitReaches(hooks, forward, h, kids[0].value, done); }
      VisitKidsReach(hooks, forward, h, kids[1..], bound, VisitKid(hooks, forward, h, kids[0], bound, done).1);
    }
  }

  // ---------------------------------------------------------------- agreement with plain rewriting

  /** What is finished is its plain rewriting. */
  ghost predicate PlainOk(hooks: Hooks, h: Heap, done: Finished)
    requires Acyclic(h)
  {
    forall n | n in done && n < |h| :: done[n] == Rewrite(hooks, Unfold(h, n))
  }

  /** `more` is `kids` with some of them replaced by their rewriting, none of these null. */
  ghost predicate PartlyRewritten(hooks: Hooks, kids: seq<Option<Tree>>, more: seq<Option<Tree>>) {
    |more| == |kids| &&
    forall i | 0 <= i < |kids| ::
      more[i] == kids[i] || (kids[i].Some? && more[i].Some? && more[i] == Rewrite(hooks, kids[i].value))
  }

  /** What becomes of a node with given children when the preorder hook gives this answer. */
  function Outcome(hooks: Hooks, tag: string, kids: seq<Option<Tree>>, answer: Pre): Option<Tree> {
    if answer.DropPre? then None
    else
      var (t, rewritten) := Answered(answer, tag, RewriteKids(hooks, kids));
      ApplyPost(hooks, t, rewritten)
  }

  /** It makes no difference to what becomes of a node if the preorder hook is shown children that
      have been rewritten. */
  ghost predicate Steady(hooks: Hooks) {
    forall tag: string, kids: seq<Option<Tree>>, more: seq<Option<Tree>> | PartlyRewritten(hooks, kids, more) ::
      Outcome(hooks, tag, kids, hooks.pre(tag, more)) == Outcome(hooks, tag, kids, hooks.pre(tag, kids))
  }

  /** At each node visited, what the preorder hook answers to the children it sees comes to the same as
      what it answers to the node's own. */
  ghost predicate SteadyVisit(hooks: Hooks, forward: bool, h: Heap, n: Id, done: Finished)
    requires Acyclic(h) && n < |h|
    decreases n, 1, 0
  {
    n !in done ==>
      var (tag, kids) := (h[n].tag, h[n].kids);
      var own, seen := UnfoldKids(h, kids, n), SeenKids(h, kids, n, done, forward);
      var answer := hooks.pre(tag, seen);
      && Outcome(hooks, tag, own, answer) == Outcome(hooks, tag, own, hooks.pre(tag, own))
      && (!answer.DropPre? ==> SteadyKids(hooks, forward, h, Answered(answer, tag, kids).1, n, done))
  }

  ghost predicate SteadyKids(hooks: Hooks, forward: bool, h: Heap, kids: seq<Option<Id>>, bound: Id, done: Finished)
    requires Acyclic(h) && bound <= |h| && KidsBelow(kids, bound)
    decreases bound, 0, |kids|
  {
    kids != [] ==>
      && (kids[0].Some? ==> SteadyVisit(hooks, forward, h, kids[0].value, done))
      && SteadyKids(hooks, forward, h, kids[1..], bound, VisitKid(hooks, forward, h, kids[0], bound, done).1)
  }

  /** What has been visited stays as it is, and nothing above `top` is added. */
  ghost predicate Grows(done: Finished, more: Finished, top: Id) {
    (forall m | m in done :: m in more && more[m] == done[m]) && (forall m | m in more :: m in done || m <= top)
  }

  lemma {:induction false} VisitGrows(hooks: Hooks, forward: bool, h: Heap, n: Id, done: Finished)
    requires Acyclic(h) && n < |h|
    ensures Grows(done, Visit(hooks, forward, h, n, done).1, n)
    decreases n, 1, 0
  {
    if n !in done {
      var answer := hooks.pre(h[n].tag, SeenKids(h, h[n].kids, n, done, forward));
      if !answer.DropPre? {
        VisitKidsGrow(hooks, forward, h, Answered(answer, h[n].tag, h[n].kids).1, n, done, n);
      }
    }
  }

  lemma {:induction false} VisitKidsGrow(hooks: Hooks, forward: bool, h: Heap, kids: seq<Option<Id>>, bound: Id, done: Finished, top: Id)
    requires Acyclic(h) && bound <= |h| && KidsBelow(kids, bound) && KidsBelow(kids, top)
    ensures var more := VisitKids(hooks, forward, h, kids, bound, done).1;
            && (forall m | m in done :: m in more && more[m] == done[m])
            && (forall m | m in more :: m in done || m < top)
    decreases bound, 0, |kids|
  {
    if kids != [] {
      if kids[0].Some? { VisitGrows(hooks, forward, h, kids[0].value, done); }
      var d1 := VisitKid(hooks, forward, h, kids[0], bound, done).1;
      VisitKidsGrow(hooks, forward, h, kids[1..], bound, d1, top);
    }
  }

  /** From what is plain, a visit makes everything it visits its plain rewriting if and only if it is
      steady. */
  lemma {:induction false} PlainExactlyIfSteady(hooks: Hooks, forward: bool, h: Heap, n: Id, done: Finished)
    requires Acyclic(h) && n < |h| && PlainOk(hooks, h, done)
    ensures PlainOk(hooks, h, Visit(hooks, forward, h, n, done).1) <==> SteadyVisit(hooks, forward, h, n, done)
    decreases n, 1, 0
  {
    if n !in done {
      var tag, kids := h[n].tag, h[n].kids;
      var answer := hooks.pre(tag, SeenKids(h, kids, n, done, forward));
      if answer.DropPre? {
        PlainWithOneMore(hooks, h, done, n, None);
      } else {
        var (t, below) := Answered(answer, tag, kids);
        var (trees, more) := VisitKids(hooks, forward, h, below, n, done);
        VisitKidsGrow(hooks, forward, h, below, n, done, n);
        KidsPlainExactlyIfSteady(hooks, forward, h, below, n, done);
        if PlainOk(hooks, h, more) {
          VisitKidsRewrite(hooks, forward, h, below, n, done);
          AnsweredRewrites(hooks, h, kids, n, tag, answer);
        }
        PlainWithOneMore(hooks, h, more, n, ApplyPost(hooks, t, trees));
      }
    }
  }

  lemma PlainWithOneMore(hooks: Hooks, h: Heap, done: Finished, n: Id, result: Option<Tree>)
    requires Acyclic(h) && n < |h| && n !in done
    ensures PlainOk(hooks, h, done[n := result]) <==> PlainOk(hooks, h, done) && result == Rewrite(hooks, Unfold(h, n))
  {
    var more := done[n := result];
    assert forall m :: m in more <==> m in done || m == n;
    if PlainOk(hooks, h, more) {
      assert more[n] == Rewrite(hooks, Unfold(h, n));
      forall m | m in done && m < |h| ensures done[m] == Rewrite(hooks, Unfold(h, m)) {
        assert m in more && more[m] == done[m];
      }
    }
  }

  lemma {:induction false} KidsPlainExactlyIfSteady(hooks: Hooks, forward: bool, h: Heap, kids: seq<Option<Id>>, bound: Id, done: Finished)
    requires Acyclic(h) && bound <= |h| && KidsBelow(kids, bound) && PlainOk(hooks, h, done)
    ensures PlainOk(hooks, h, VisitKids(hooks, forward, h, kids, bound, done).1) <==>
              SteadyKids(hooks, forward, h, kids, bound, done)
    decreases bound, 0, |kids|
  {
    if kids != [] {
      var d1 := VisitKid(hooks, forward, h, kids[0], bound, done).1;
      if kids[0].Some? { PlainExactlyIfSteady(hooks, forward, h, kids[0].value, done); }
      if PlainOk(hooks, h, d1) {
        KidsPlainExactlyIfSteady(hooks, forward, h, kids[1..], bound, d1);
      } else {
        VisitKidsGrow(hooks, forward, h, kids[1..], bound, d1, bound);
        NeverPlainAgain(hooks, h, d1, VisitKids(hooks, forward, h, kids[1..], bound, d1).1);
      }
    }
  }

  lemma NeverPlainAgain(hooks: Hooks, h: Heap, done: Finished, more: Finished)
    requires Acyclic(h) && !PlainOk(hooks, h, done) && forall m | m in done :: m in more && more[m] == done[m]
    ensures !PlainOk(hooks, h, more)
  {
    var m :| m in done && m < |h| && done[m] != Rewrite(hooks, Unfold(h, m));
    assert m in more;
  }

  /** If everything visited is plain, the children have become their rewriting. */
  lemma {:induction false} VisitKidsRewrite(hooks: Hooks, forward: bool, h: Heap, kids: seq<Option<Id>>, bound: Id, done: Finished)
    requires Acyclic(h) && bound <= |h| && KidsBelow(kids, bound)
    requires PlainOk(hooks, h, VisitKids(hooks, forward, h, kids, bound, done).1)
    ensures VisitKids(hooks, forward, h, kids, bound, done).0 == RewriteKids(hooks, UnfoldKids(h, kids, bound))
    decreases |kids|
  {
    if kids != [] {
      var (first, d1) := VisitKid(hooks, forward, h, kids[0], bound, done);
      VisitKidsRewrite(hooks, forward, h, kids[1..], bound, d1);
      VisitKidsGrow(hooks, forward, h, kids[1..], bound, d1, bound);
      if kids[0].Some? {
        VisitRecords(hooks, forward, h, kids[0].value, done);
        assert kids[0].value in VisitKids(hooks, forward, h, kids, bound, done).1;
      }
    }
  }

  lemma {:induction false} AnsweredRewrites(hooks: Hooks, h: Heap, kids: seq<Option<Id>>, bound: Id, tag: string, answer: Pre)
    requires Acyclic(h) && bound <= |h| && KidsBelow(kids, bound) && !answer.DropPre?
    ensures KidsBelow(Answered(answer, tag, kids).1, bound)
    ensures RewriteKids(hooks, UnfoldKids(h, Answered(answer, tag, kids).1, bound))
         == Answered(answer, tag, RewriteKids(hooks, UnfoldKids(h, kids, bound))).1
    ensures Answered(answer, tag, RewriteKids(hooks, UnfoldKids(h, kids, bound))).0 == Answered(answer, tag, kids).0
  {
    match answer
    case EditPre(_, select) => SelectRewrites(hooks, h, kids, bound, select);
    case FreshPre(_, select) => SelectRewrites(hooks, h, kids, bound, select);
    case _ =>
  }

  lemma {:induction false} SelectRewrites(hooks: Hooks, h: Heap, kids: seq<Option<Id>>, bound: Id, select: seq<nat>)
    requires Acyclic(h) && bound <= |h| && KidsBelow(kids, bound)
    ensures RewriteKids(hooks, UnfoldKids(h, Select(kids, select), bound))
         == Select(RewriteKids(hooks, UnfoldKids(h, kids, bound)), select)
  {
    var below := Select(kids, select);
    forall i | 0 <= i < |select|
      ensures RewriteKids(hooks, UnfoldKids(h, below, bound))[i] == Select(RewriteKids(hooks, UnfoldKids(h, kids, bound)), select)[i]
    {
      assert below[i] == if select[i] < |kids| then kids[select[i]] else None;
    }
  }

  /** If forwarding makes no difference to any hook, or there is none, every visit is steady. */
  lemma {:induction false} AlwaysSteady(hooks: Hooks, forward: bool, h: Heap, n: Id, done: Finished)
    requires Acyclic(h) && n < |h| && PlainOk(hooks, h, done) && (forward ==> Steady(hooks))
    ensures SteadyVisit(hooks, forward, h, n, done)
    decreases n, 1, 0
  {
    if n !in done {
      var tag, kids := h[n].tag, h[n].kids;
      var own, seen := UnfoldKids(h, kids, n), SeenKids(h, kids, n, done, forward);
      if forward {
        assert PartlyRewritten(hooks, own, seen);
      } else {
        assert seen == own;
      }
      var answer := hooks.pre(tag, seen);
      if !answer.DropPre? { KidsAlwaysSteady(hooks, forward, h, Answered(answer, tag, kids).1, n, done); }
    }
  }

  lemma {:induction false} KidsAlwaysSteady(hooks: Hooks, forward: bool, h: Heap, kids: seq<Option<Id>>, bound: Id, done: Finished)
    requires Acyclic(h) && bound <= |h| && KidsBelow(kids, bound) && PlainOk(hooks, h, done) && (forward ==> Steady(hooks))
    ensures SteadyKids(hooks, forward, h, kids, bound, done)
    decreases bound, 0, |kids|
  {
    if kids != [] {
      if kids[0].Some? {
        AlwaysSteady(hooks, forward, h, kids[0].value, done);
        PlainExactlyIfSteady(hooks, forward, h, kids[0].value, done);
      }
      KidsAlwaysSteady(hooks, forward, h, kids[1..], bound, VisitKid(hooks, forward, h, kids[0], bound, done).1);
    }
  }

  /** Without forwarding, or if it makes no difference, visiting any node is plain rewriting, whatever
      has been visited before. */
  lemma VisitIsPlain(hooks: Hooks, forward: bool, h: Heap, n: Id, done: Finished)
    requires Acyclic(h) && n < |h| && PlainOk(hooks, h, done) && (forward ==> Steady(hooks))
    ensures var (t, more) := Visit(hooks, forward, h, n, done);
            t == Rewrite(hooks, Unfold(h, n)) && PlainOk(hooks, h, more)
  {
    AlwaysSteady(hooks, forward, h, n, done);
    PlainExactlyIfSteady(hooks, forward, h, n, done);
    VisitRecords(hooks, forward, h, n, done);
  }

  /** A visit with nothing visited before. */
  lemma VisitFromScratch(hooks: Hooks, forward: bool, h: Heap, n: Id)
    requires Acyclic(h) && n < |h|
    ensures var (t, more) := Visit(hooks, forward, h, n, map[]);
            && n in more && more[n] == t
            && (PlainOk(hooks, h, more) <==> SteadyVisit(hooks, forward, h, n, map[]))
            && (PlainOk(hooks, h, more) ==> t == Rewrite(hooks, Unfold(h, n)))
            && (!forward || Steady(hooks) ==> SteadyVisit(hooks, forward, h, n, map[]))
            && (KeepsAll(hooks) ==> more.Keys == Inspection.Reached(h, Everywhere, n))
  {
    VisitRecords(hooks, forward, h, n, map[]);
    PlainExactlyIfSteady(hooks, forward, h, n, map[]);
    if !forward || Steady(hooks) { AlwaysSteady(hooks, forward, h, n, map[]); }
    if KeepsAll(hooks) { VisitReaches(hooks, forward, h, n, map[]); }
  }

  /** `r(a, p(a))`, where a preorder hook drops `p` over `a`, and a postorder hook turns `a` into `b`:
      plain rewriting drops the `p`, but with forwarding the hook sees `b` below it and keeps it. */
  lemma ForwardingDiffers()
    ensures var hooks, h := DropOverA(), SharedA();
            var b := Some(Node("b", []));
            && Acyclic(h)
            && Rewrite(hooks, Unfold(h, 2)) == Some(Node("r", [b, None]))
            && Visit(hooks, true, h, 2, map[]).0 == Some(Node("r", [b, Some(Node("p", [b]))]))
  {
    var hooks, h := DropOverA(), SharedA();
    var a := Some(Node("a", []));
    SharedUnfolds();
    PlainDropsP();
    SharedVisitsBelow();
    assert SeenKids(h, [Some(0), Some(1)], 2, map[], true) == [a, Some(Node("p", [a]))];
  }

  function DropOverA(): Hooks {
    Hooks((tag, kids) => if tag == "p" && kids == [Some(Node("a", []))] then DropPre else KeepPre,
          (tag, kids) => if tag == "a" then EditPost("b", []) else KeepPost)
  }

  function SharedA(): Heap {
    [NodeData("a", []), NodeData("p", [Some(0)]), NodeData("r", [Some(0), Some(1)])]
  }

  lemma SharedUnfolds()
    ensures var h, a := SharedA(), Some(Node("a", []));
            && Acyclic(h) && UnfoldOption(h, Some(0)) == a && UnfoldOption(h, Some(1)) == Some(Node("p", [a]))
            && Unfold(h, 2) == Node("r", [a, Some(Node("p", [a]))])
  {
    var h, a := SharedA(), Some(Node("a", []));
    assert UnfoldKids(h, [], 0) == [];
    assert UnfoldKids(h, [Some(0)], 1) == [a];
    assert UnfoldKids(h, [Some(0), Some(1)], 2) == [a, Some(Node("p", [a]))];
  }

  lemma PlainDropsP()
    ensures var a := Node("a", []);
            Rewrite(DropOverA(), Node("r", [Some(a), Some(Node("p", [Some(a)]))])) == Some(Node("r", [Some(Node("b", [])), None]))
  {
    var hooks, a, b := DropOverA(), Some(Node("a", [])), Some(Node("b", []));
    assert RewriteKids(hooks, []) == [] && PlantAll([], []) == [];
    assert Rewrite(hooks, a.value) == b;
    assert Rewrite(hooks, Node("p", [a])) == None;
    assert RewriteKids(hooks, [a, Some(Node("p", [a]))]) == [b, None];
  }

  lemma SharedVisitsBelow()
    ensures var hooks, h, b := DropOverA(), SharedA(), Some(Node("b", []));
            var p := Some(Node("p", [b]));
            Acyclic(h) && VisitKids(hooks, true, h, [Some(0), Some(1)], 2, map[]) == ([b, p], map[0 := b, 1 := p])
  {
    var hooks, h, b := DropOverA(), SharedA(), Some(Node("b", []));
    var p, d0 := Some(Node("p", [b])), map[0 := b];
    SharedUnfolds();
    assert VisitKids(hooks, true, h, [], 0, map[]) == ([], map[]) && PlantAll([], []) == [];
    assert Visit(hooks, true, h, 0, map[]) == (b, d0);
    assert SeenKids(h, [Some(0)], 1, d0, true) == [b];
    OneKid(hooks, h, 0, 1, d0);
    assert Visit(hooks, true, h, 1, d0) == (p, d0[1 := p]);
    OneKid(hooks, h, 1, 2, d0);
    var kids := [Some(0), Some(1)];
    assert kids[1..] == [Some(1)] && d0[1 := p] == map[0 := b, 1 := p];
    assert [b] + [p] == [b, p];
  }

  lemma OneKid(hooks: Hooks, h: Heap, kid: Id, bound: Id, done: Finished)
    requires Acyclic(h) && bound <= |h| && kid < bound
    ensures VisitKids(hooks, true, h, [Some(kid)], bound, done) ==
            var (t, more) := Visit(hooks, true, h, kid, done); ([t], more)
  {
    var kids := [Some(kid)];
    var (t, more) := Visit(hooks, true, h, kid, done);
    assert kids[1..] == [] && [t] + [] == [t] && VisitKids(hooks, true, h, [], bound, more) == ([], more);
  }
}
