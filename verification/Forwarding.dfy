/** For which hooks a transform that forwards children does plain rewriting, on every IR. */
module Forwarding {
  import opened Wrappers
  import opened Dag
  import opened Memo

  /** With forwarding, every traversal is plain rewriting. */
  ghost predicate ForwardingIsPlain(hooks: Hooks) {
    forall h: Heap, n: Id | Acyclic(h) && n < |h| :: Visit(hooks, true, h, n, map[]).0 == Rewrite(hooks, Unfold(h, n))
  }

  /** The hooks hand nodes of this kind back as they are, whatever is below them. */
  ghost predicate LeavesAlone(hooks: Hooks, tag: string) {
    forall kids: seq<Option<Tree>> :: hooks.pre(tag, kids) == KeepPre && hooks.post(tag, kids) == KeepPost
  }

  // ---------------------------------------------------------------- parts of a heap apart from others

  predicate KidsAbove(kids: seq<Option<Id>>, lo: Id) {
    forall i | 0 <= i < |kids| && kids[i].Some? :: lo <= kids[i].value
  }

  /** No node from `lo` to `n` has a child outside. */
  ghost predicate Closed(h: Heap, lo: Id, n: Id) {
    forall m | lo <= m <= n && m < |h| :: KidsAbove(h[m].kids, lo)
  }

  /** No node from `lo` to `n` has been visited. */
  ghost predicate Untaken(done: Finished, lo: Id, n: Id) {
    forall m | m in done :: m < lo || n < m
  }

  /** What was visited elsewhere does not matter. */
  lemma {:induction false} VisitApart(hooks: Hooks, h: Heap, lo: Id, n: Id, outer: Finished, inner: Finished)
    requires Acyclic(h) && lo <= n < |h| && Closed(h, lo, n) && Untaken(outer, lo, n)
    ensures var (t, more) := Visit(hooks, true, h, n, inner);
            Visit(hooks, true, h, n, outer + inner) == (t, outer + more)
    decreases n, 1, 0
  {
    if n !in inner {
      var kids := h[n].kids;
      SeenApart(h, lo, kids, n, outer, inner);
      var answer := hooks.pre(h[n].tag, SeenKids(h, kids, n, inner, true));
      if answer.DropPre? {
        assert (outer + inner)[n := None] == outer + inner[n := None];
      } else {
        var (tag, below) := Answered(answer, h[n].tag, kids);
        AnsweredAbove(answer, h[n].tag, kids, lo);
        VisitBelowApart(hooks, h, lo, tag, below, n, outer, inner);
        assert Visit(hooks, true, h, n, inner) == VisitBelow(hooks, true, h, tag, below, n, inner);
        assert Visit(hooks, true, h, n, outer + inner) == VisitBelow(hooks, true, h, tag, below, n, outer + inner);
      }
    }
  }

  lemma {:induction false} VisitBelowApart(hooks: Hooks, h: Heap, lo: Id, tag: string, kids: seq<Option<Id>>, n: Id, outer: Finished, inner: Finished)
    requires Acyclic(h) && n < |h| && KidsBelow(kids, n) && KidsAbove(kids, lo) && Closed(h, lo, n) && Untaken(outer, lo, n)
    ensures var (t, more) := VisitBelow(hooks, true, h, tag, kids, n, inner);
            VisitBelow(hooks, true, h, tag, kids, n, outer + inner) == (t, outer + more)
    decreases n, 0, |kids| + 1
  {
    VisitKidsApart(hooks, h, lo, kids, n, outer, inner);
    var (trees, more) := VisitKids(hooks, true, h, kids, n, inner);
    var result := ApplyPost(hooks, tag, trees);
    assert (outer + more)[n := result] == outer + more[n := result];
  }

  lemma AnsweredAbove(answer: Pre, tag: string, kids: seq<Option<Id>>, lo: Id)
    requires KidsAbove(kids, lo) && !answer.DropPre?
    ensures KidsAbove(Answered(answer, tag, kids).1, lo)
  {
  }

  lemma SeenApart(h: Heap, lo: Id, kids: seq<Option<Id>>, n: Id, outer: Finished, inner: Finished)
    requires Acyclic(h) && n < |h| && KidsBelow(kids, n) && KidsAbove(kids, lo) && Untaken(outer, lo, n)
    ensures SeenKids(h, kids, n, outer + inner, true) == SeenKids(h, kids, n, inner, true)
  {
  }

  lemma {:induction false} VisitKidsApart(hooks: Hooks, h: Heap, lo: Id, kids: seq<Option<Id>>, bound: Id, outer: Finished, inner: Finished)
    requires Acyclic(h) && bound < |h| && KidsBelow(kids, bound) && KidsAbove(kids, lo)
    requires Closed(h, lo, bound) && Untaken(outer, lo, bound)
    ensures var (trees, more) := VisitKids(hooks, true, h, kids, bound, inner);
            VisitKids(hooks, true, h, kids, bound, outer + inner) == (trees, outer + more)
    decreases bound, 0, |kids|
  {
    if kids != [] {
      if kids[0].Some? { VisitApart(hooks, h, lo, kids[0].value, outer, inner); }
      VisitKidsApart(hooks, h, lo, kids[1..], bound, outer, VisitKid(hooks, true, h, kids[0], bound, inner).1);
    }
  }

  /** A visit stays inside a closed part. */
  lemma {:induction false} VisitInside(hooks: Hooks, h: Heap, lo: Id, n: Id, done: Finished)
    requires Acyclic(h) && lo <= n < |h| && Closed(h, lo, n)
    ensures forall m | m in Visit(hooks, true, h, n, done).1 :: m in done || lo <= m <= n
    decreases n, 1, 0
  {
    if n !in done {
      var answer := hooks.pre(h[n].tag, SeenKids(h, h[n].kids, n, done, true));
      if !answer.DropPre? {
        AnsweredAbove(answer, h[n].tag, h[n].kids, lo);
        VisitKidsInside(hooks, h, lo, Answered(answer, h[n].tag, h[n].kids).1, n, done);
      }
    }
  }

  lemma {:induction false} VisitKidsInside(hooks: Hooks, h: Heap, lo: Id, kids: seq<Option<Id>>, bound: Id, done: Finished)
    requires Acyclic(h) && bound < |h| && KidsBelow(kids, bound) && KidsAbove(kids, lo) && Closed(h, lo, bound)
    ensures forall m | m in VisitKids(hooks, true, h, kids, bound, done).1 :: m in done || lo <= m <= bound
    decreases bound, 0, |kids|
  {
    if kids != [] {
      if kids[0].Some? { VisitInside(hooks, h, lo, kids[0].value, done); }
      VisitKidsInside(hooks, h, lo, kids[1..], bound, VisitKid(hooks, true, h, kids[0], bound, done).1);
    }
  }

  // ---------------------------------------------------------------- children apart from each other

  /** The part from `los[i]` on up to child `i` is closed, and these parts do not overlap. */
  ghost predicate Apart(h: Heap, los: seq<Id>, ids: seq<Option<Id>>) {
    && |los| == |ids|
    && (forall i | 0 <= i < |ids| && ids[i].Some? :: los[i] <= ids[i].value < |h| && Closed(h, los[i], ids[i].value))
    && (forall i, j | 0 <= i < j < |ids| && ids[i].Some? && ids[j].Some? :: ids[i].value < los[j])
  }

  /** Each child has become its plain rewriting, or nothing in its part has been visited. */
  ghost predicate Good(hooks: Hooks, h: Heap, los: seq<Id>, ids: seq<Option<Id>>, done: Finished)
    requires Acyclic(h) && Apart(h, los, ids)
  {
    forall i | 0 <= i < |ids| && ids[i].Some? :: GoodAt(hooks, h, los[i], ids[i].value, done)
  }

  ghost predicate GoodAt(hooks: Hooks, h: Heap, lo: Id, n: Id, done: Finished)
    requires Acyclic(h) && n < |h|
  {
    (n in done && done[n] == Rewrite(hooks, Unfold(h, n))) || Untaken(done, lo, n)
  }

  /** Visiting one of the children. */
  lemma VisitGood(hooks: Hooks, h: Heap, los: seq<Id>, ids: seq<Option<Id>>, i: nat, done: Finished)
    requires ForwardingIsPlain(hooks) && Acyclic(h) && Apart(h, los, ids) && Good(hooks, h, los, ids, done)
    requires i < |ids| && ids[i].Some?
    ensures var (t, more) := Visit(hooks, true, h, ids[i].value, done);
            && t == Rewrite(hooks, Unfold(h, ids[i].value)) && Good(hooks, h, los, ids, more)
            && ids[i].value in more && AddsInside(done, more, los[i], ids[i].value)
  {
    var lo, n := los[i], ids[i].value;
    assert GoodAt(hooks, h, lo, n, done);
    if n !in done {
      VisitFresh(hooks, h, lo, n, done);
      var more := Visit(hooks, true, h, n, done).1;
      forall j | 0 <= j < |ids| && ids[j].Some? ensures GoodAt(hooks, h, los[j], ids[j].value, more) {
        assert GoodAt(hooks, h, los[j], ids[j].value, done);
        if i < j { assert n < los[j]; } else if j < i { assert ids[j].value < lo; }
      }
    }
  }

  ghost predicate AddsInside(done: Finished, more: Finished, lo: Id, n: Id) {
    (forall m | m in done :: m in more && more[m] == done[m]) && (forall m | m in more :: m in done || lo <= m <= n)
  }

  lemma VisitFresh(hooks: Hooks, h: Heap, lo: Id, n: Id, done: Finished)
    requires ForwardingIsPlain(hooks) && Acyclic(h) && lo <= n < |h| && Closed(h, lo, n) && Untaken(done, lo, n)
    ensures var (t, more) := Visit(hooks, true, h, n, done);
            && t == Rewrite(hooks, Unfold(h, n)) && n in more && more[n] == t && AddsInside(done, more, lo, n)
  {
    VisitApart(hooks, h, lo, n, done, map[]);
    VisitInside(hooks, h, lo, n, map[]);
    VisitRecords(hooks, true, h, n, done);
    assert done + map[] == done;
  }

  ghost predicate Drawn(kids: seq<Option<Id>>, ids: seq<Option<Id>>) {
    forall j | 0 <= j < |kids| && kids[j].Some? :: kids[j] in ids
  }

  /** A child is among these, or its part is as it was. */
  ghost predicate TakesOnly(los: seq<Id>, ids: seq<Option<Id>>, kids: seq<Option<Id>>, done: Finished, more: Finished)
    requires |los| == |ids|
  {
    forall i | 0 <= i < |ids| && ids[i].Some? ::
      if ids[i] in kids then ids[i].value in more
      else Untaken(done, los[i], ids[i].value) ==> Untaken(more, los[i], ids[i].value)
  }

  /** Visiting any of the children, in any order and as often as you like. */
  lemma {:induction false} VisitKidsGood(hooks: Hooks, h: Heap, los: seq<Id>, ids: seq<Option<Id>>, kids: seq<Option<Id>>, bound: Id, done: Finished)
    requires ForwardingIsPlain(hooks) && Acyclic(h) && Apart(h, los, ids) && Good(hooks, h, los, ids, done)
    requires bound <= |h| && KidsBelow(kids, bound) && Drawn(kids, ids)
    ensures var (trees, more) := VisitKids(hooks, true, h, kids, bound, done);
            && trees == RewriteKids(hooks, UnfoldKids(h, kids, bound)) && Good(hooks, h, los, ids, more)
            && TakesOnly(los, ids, kids, done, more)
    decreases |kids|
  {
    if kids != [] {
      var (first, d1) := VisitKid(hooks, true, h, kids[0], bound, done);
      if kids[0].Some? {
        var i :| 0 <= i < |ids| && ids[i] == kids[0];
        VisitGood(hooks, h, los, ids, i, done);
        FirstTaken(los, ids, i, h, done, d1);
      }
      VisitKidsGood(hooks, h, los, ids, kids[1..], bound, d1);
      VisitKidsGrow(hooks, true, h, kids[1..], bound, d1, bound);
      var more := VisitKids(hooks, true, h, kids, bound, done).1;
      TakesMore(los, ids, kids, done, d1, more);
    }
  }

  lemma FirstTaken(los: seq<Id>, ids: seq<Option<Id>>, i: nat, h: Heap, done: Finished, more: Finished)
    requires Apart(h, los, ids) && i < |ids| && ids[i].Some?
    requires ids[i].value in more && AddsInside(done, more, los[i], ids[i].value)
    ensures TakesOnly(los, ids, [ids[i]], done, more)
  {
    forall j | 0 <= j < |ids| && ids[j].Some? && ids[j] !in [ids[i]] && Untaken(done, los[j], ids[j].value)
      ensures Untaken(more, los[j], ids[j].value)
    {
      if i < j { assert ids[i].value < los[j]; } else { assert j < i && ids[j].value < los[i]; }
    }
  }

  lemma TakesMore(los: seq<Id>, ids: seq<Option<Id>>, kids: seq<Option<Id>>, done: Finished, d1: Finished, more: Finished)
    requires |los| == |ids| && kids != [] && (if kids[0].Some? then TakesOnly(los, ids, [kids[0]], done, d1) else d1 == done)
    requires TakesOnly(los, ids, kids[1..], d1, more) && forall m | m in d1 :: m in more
    ensures TakesOnly(los, ids, kids, done, more)
  {
    assert kids == [kids[0]] + kids[1..];
  }

  // ---------------------------------------------------------------- laying trees

  /** Trees as nodes of their own on top of a heap. */
  function Lay(h: Heap, t: Tree): (r: (Heap, Id))
    decreases t, 1
  {
    var (g, kids) := LayAll(h, t.kids);
    (g + [NodeData(t.tag, kids)], |g|)
  }

  function LayAll(h: Heap, trees: seq<Option<Tree>>): (r: (Heap, seq<Option<Id>>))
    ensures |r.1| == |trees|
    decreases trees, 0
  {
    if trees == [] then (h, [])
    else if trees[0].None? then
      var (g, rest) := LayAll(h, trees[1..]);
      (g, [None] + rest)
    else
      assert trees[0].value < trees[0];
      var (f, first) := Lay(h, trees[0].value);
      var (g, rest) := LayAll(f, trees[1..]);
      (g, [Some(first)] + rest)
  }

  /** Where each of them starts. */
  function Starts(h: Heap, trees: seq<Option<Tree>>): (los: seq<Id>)
    ensures |los| == |trees|
    decreases |trees|
  {
    if trees == [] then []
    else [|h|] + Starts(if trees[0].None? then h else Lay(h, trees[0].value).0, trees[1..])
  }

  lemma ClosedStays(h: Heap, g: Heap, lo: Id, n: Id)
    requires h <= g && n < |h| && Closed(h, lo, n)
    ensures Closed(g, lo, n)
  {
    forall m | lo <= m <= n && m < |g| ensures KidsAbove(g[m].kids, lo) {
      assert g[m] == h[m];
    }
  }

  lemma {:induction false} LayUnfolds(h: Heap, t: Tree)
    requires Acyclic(h)
    ensures var (g, n) := Lay(h, t);
            h <= g && Acyclic(g) && |h| <= n == |g| - 1 && Unfold(g, n) == t && Closed(g, |h|, n)
    decreases t, 1
  {
    LayAllUnfolds(h, t.kids);
    var (g, kids) := LayAll(h, t.kids);
    var f := g + [NodeData(t.tag, kids)];
    UnfoldKidsStable(g, f, kids, |g|, |g|);
    forall m | |h| <= m <= |g| && m < |f| ensures KidsAbove(f[m].kids, |h|) {
      if m < |g| { assert f[m] == g[m]; }
    }
  }

  /** All are laid apart. */
  lemma {:induction false} LayAllUnfolds(h: Heap, trees: seq<Option<Tree>>)
    requires Acyclic(h)
    ensures LaidApart(h, LayAll(h, trees).0, Starts(h, trees), LayAll(h, trees).1, trees)
    decreases trees, 0
  {
    if trees == [] {
    } else if trees[0].None? {
      LayAllUnfolds(h, trees[1..]);
      LaidNone(h, LayAll(h, trees[1..]).0, Starts(h, trees[1..]), LayAll(h, trees[1..]).1, trees[1..]);
      assert trees == [None] + trees[1..];
    } else {
      assert trees[0].value < trees[0];
      LayUnfolds(h, trees[0].value);
      var (f, n) := Lay(h, trees[0].value);
      LayAllUnfolds(f, trees[1..]);
      LaidFirst(h, f, n, LayAll(f, trees[1..]).0, Starts(f, trees[1..]), LayAll(f, trees[1..]).1, trees[1..]);
      assert trees == [Some(Unfold(f, n))] + trees[1..];
    }
  }

  /** All nodes from `lo` on have their children there. */
  ghost predicate Within(g: Heap, lo: Id) {
    forall m | lo <= m < |g| :: KidsAbove(g[m].kids, lo)
  }

  ghost predicate LaidApart(h: Heap, g: Heap, los: seq<Id>, ids: seq<Option<Id>>, trees: seq<Option<Tree>>) {
    && h <= g && Acyclic(g) && KidsBelow(ids, |g|) && UnfoldKids(g, ids, |g|) == trees
    && KidsAbove(ids, |h|) && Within(g, |h|)
    && Apart(g, los, ids) && forall i | 0 <= i < |los| :: |h| <= los[i]
  }

  lemma LaidNone(h: Heap, g: Heap, los: seq<Id>, ids: seq<Option<Id>>, trees: seq<Option<Tree>>)
    requires LaidApart(h, g, los, ids, trees)
    ensures LaidApart(h, g, [|h|] + los, [None] + ids, [None] + trees)
  {
    Shifted(|h|, los, None, ids);
  }

  lemma LaidFirst(h: Heap, f: Heap, n: Id, g: Heap, los: seq<Id>, ids: seq<Option<Id>>, trees: seq<Option<Tree>>)
    requires Acyclic(f) && h <= f && |h| <= n == |f| - 1 && Closed(f, |h|, n) && LaidApart(f, g, los, ids, trees)
    ensures LaidApart(h, g, [|h|] + los, [Some(n)] + ids, [Some(Unfold(f, n))] + trees)
  {
    Shifted(|h|, los, Some(n), ids);
    ApartFirst(f, |h|, n, g, los, ids);
    UnfoldFirst(f, n, g, ids);
    forall m | |h| <= m < |g| ensures KidsAbove(g[m].kids, |h|) {
      if m > n { assert KidsAbove(g[m].kids, |f|); } else { assert g[m] == f[m]; }
    }
  }

  lemma ApartFirst(f: Heap, lo: Id, n: Id, g: Heap, los: seq<Id>, ids: seq<Option<Id>>)
    requires f <= g && lo <= n == |f| - 1 && Closed(f, lo, n) && Apart(g, los, ids) && forall i | 0 <= i < |los| :: |f| <= los[i]
    ensures Apart(g, [lo] + los, [Some(n)] + ids)
  {
    Shifted(lo, los, Some(n), ids);
    ClosedStays(f, g, lo, n);
  }

  lemma UnfoldFirst(f: Heap, n: Id, g: Heap, ids: seq<Option<Id>>)
    requires Acyclic(f) && Acyclic(g) && f <= g && n < |f| && KidsBelow(ids, |g|)
    ensures KidsBelow([Some(n)] + ids, |g|)
    ensures UnfoldKids(g, [Some(n)] + ids, |g|) == [Some(Unfold(f, n))] + UnfoldKids(g, ids, |g|)
  {
    UnfoldIsStable(f, g, n);
  }

  lemma Shifted(lo: Id, los: seq<Id>, id: Option<Id>, ids: seq<Option<Id>>)
    ensures forall i | 0 < i < |[lo] + los| :: ([lo] + los)[i] == los[i - 1]
    ensures forall i | 0 < i < |[id] + ids| :: ([id] + ids)[i] == ids[i - 1]
  {
  }

  // ---------------------------------------------------------------- exactly when

  /** The children that are to be forwarded. */
  function Picked(kids: seq<Option<Tree>>, more: seq<Option<Tree>>, ids: seq<Option<Id>>): (r: seq<Option<Id>>)
    requires |kids| == |more| == |ids|
  {
    if kids == [] then []
    else (if more[0] != kids[0] then [ids[0]] else []) + Picked(kids[1..], more[1..], ids[1..])
  }

  lemma {:induction false} PickedAre(kids: seq<Option<Tree>>, more: seq<Option<Tree>>, ids: seq<Option<Id>>)
    requires |kids| == |more| == |ids|
    ensures forall x :: x in Picked(kids, more, ids) <==> exists i :: 0 <= i < |ids| && ids[i] == x && more[i] != kids[i]
  {
    if kids != [] {
      PickedAre(kids[1..], more[1..], ids[1..]);
      forall x ensures x in Picked(kids, more, ids) <==> exists i :: 0 <= i < |ids| && ids[i] == x && more[i] != kids[i] {
        if i :| 0 <= i < |ids| && ids[i] == x && more[i] != kids[i] {
          if i > 0 { assert ids[1..][i - 1] == x && more[1..][i - 1] != kids[1..][i - 1]; }
        }
        if x in Picked(kids[1..], more[1..], ids[1..]) {
          var i :| 0 <= i < |ids| - 1 && ids[1..][i] == x && more[1..][i] != kids[1..][i];
          assert ids[i + 1] == x && more[i + 1] != kids[i + 1];
        }
      }
    }
  }

  lemma PickedDrawn(kids: seq<Option<Tree>>, more: seq<Option<Tree>>, ids: seq<Option<Id>>, bound: Id)
    requires |kids| == |more| == |ids| && KidsBelow(ids, bound)
    ensures Drawn(Picked(kids, more, ids), ids) && KidsBelow(Picked(kids, more, ids), bound)
  {
    PickedAre(kids, more, ids);
    var first := Picked(kids, more, ids);
    forall j | 0 <= j < |first| && first[j].Some? ensures first[j] in ids && first[j].value < bound {
      assert first[j] in first;
    }
  }

  /** If the hooks leave some kind of node alone, every traversal with forwarding is plain rewriting if
      and only if it makes no difference whether a preorder hook sees rewritten children. */
  lemma ForwardingIsPlainIffSteady(hooks: Hooks, alone: string)
    requires LeavesAlone(hooks, alone)
    ensures ForwardingIsPlain(hooks) <==> Steady(hooks)
  {
    if Steady(hooks) {
      forall h: Heap, n: Id | Acyclic(h) && n < |h|
        ensures Visit(hooks, true, h, n, map[]).0 == Rewrite(hooks, Unfold(h, n))
      {
        VisitIsPlain(hooks, true, h, n, map[]);
      }
    }
    if ForwardingIsPlain(hooks) {
      forall tag: string, kids: seq<Option<Tree>>, more: seq<Option<Tree>> | PartlyRewritten(hooks, kids, more)
        ensures Outcome(hooks, tag, kids, hooks.pre(tag, more)) == Outcome(hooks, tag, kids, hooks.pre(tag, kids))
      {
        ShowRewritten(hooks, alone, tag, kids, more);
      }
    }
  }

  /** A node that is visited when just those children have been visited that `more` has rewritten: it is
      behind them below a node that is left alone. */
  lemma ShowRewritten(hooks: Hooks, alone: string, tag: string, kids: seq<Option<Tree>>, more: seq<Option<Tree>>)
    requires LeavesAlone(hooks, alone) && ForwardingIsPlain(hooks) && PartlyRewritten(hooks, kids, more)
    ensures Outcome(hooks, tag, kids, hooks.pre(tag, more)) == Outcome(hooks, tag, kids, hooks.pre(tag, kids))
  {
    LayAllUnfolds([], kids);
    var (g, ids) := LayAll([], kids);
    var first := Picked(kids, more, ids);
    var n := |g|;
    var f := g + [NodeData(tag, ids)];
    var h := f + [NodeData(alone, first + [Some(n)])];
    PickedDrawn(kids, more, ids, n);
    assert Acyclic(f) && Acyclic(h);
    UnfoldKidsStable(g, h, ids, n, n);
    assert Unfold(h, n) == Node(tag, kids);
    ApartStays(g, h, Starts([], kids), ids);
    var done := VisitsFirst(hooks, h, Starts([], kids), ids, kids, more, n + 1);
    ShownRewritten(hooks, h, Starts([], kids), ids, n, more, done);
    LastBelowAlone(hooks, alone, h, n + 1, first, n);
  }

  lemma ApartStays(g: Heap, h: Heap, los: seq<Id>, ids: seq<Option<Id>>)
    requires Apart(g, los, ids) && g <= h
    ensures Apart(h, los, ids)
  {
    forall i | 0 <= i < |ids| && ids[i].Some? ensures Closed(h, los[i], ids[i].value) {
      ClosedStays(g, h, los[i], ids[i].value);
    }
  }

  /** Visiting the picked children first leaves a state in which the node is shown `more`. */
  lemma VisitsFirst(hooks: Hooks, h: Heap, los: seq<Id>, ids: seq<Option<Id>>, kids: seq<Option<Tree>>, more: seq<Option<Tree>>, bound: Id)
    returns (done: Finished)
    requires ForwardingIsPlain(hooks) && Acyclic(h) && Apart(h, los, ids) && 0 < bound <= |h| && KidsBelow(ids, bound - 1)
    requires PartlyRewritten(hooks, kids, more) && |kids| == |ids| && UnfoldKids(h, ids, bound - 1) == kids
    ensures var first := Picked(kids, more, ids);
            KidsBelow(first, bound) && done == VisitKids(hooks, true, h, first, bound, map[]).1
    ensures Good(hooks, h, los, ids, done) && bound - 1 !in done && SeenKids(h, ids, bound - 1, done, true) == more
  {
    var first := Picked(kids, more, ids);
    PickedDrawn(kids, more, ids, bound - 1);
    VisitKidsGood(hooks, h, los, ids, first, bound, map[]);
    VisitKidsGrow(hooks, true, h, first, bound, map[], bound - 1);
    done := VisitKids(hooks, true, h, first, bound, map[]).1;
    forall i | 0 <= i < |ids| ensures Seen(h, ids[i], done, true) == more[i] {
      if ids[i].Some? {
        PickedIfShown(h, los, ids, kids, more, i);
        assert GoodAt(hooks, h, los[i], ids[i].value, done);
        assert kids[i] == Some(Unfold(h, ids[i].value));
      }
    }
  }

  lemma PickedIfShown(h: Heap, los: seq<Id>, ids: seq<Option<Id>>, kids: seq<Option<Tree>>, more: seq<Option<Tree>>, i: nat)
    requires Apart(h, los, ids) && |kids| == |more| == |ids| && i < |ids| && ids[i].Some?
    ensures ids[i] in Picked(kids, more, ids) <==> more[i] != kids[i]
  {
    PickedAre(kids, more, ids);
    forall j | 0 <= j < |ids| && ids[j] == ids[i] ensures j == i {
    }
  }

  /** What becomes of a node that is shown `more`. */
  lemma ShownRewritten(hooks: Hooks, h: Heap, los: seq<Id>, ids: seq<Option<Id>>, n: Id, more: seq<Option<Tree>>, done: Finished)
    requires ForwardingIsPlain(hooks) && Acyclic(h) && n < |h| && h[n].kids == ids && n !in done
    requires Apart(h, los, ids) && Good(hooks, h, los, ids, done) && SeenKids(h, ids, n, done, true) == more
    ensures Visit(hooks, true, h, n, done).0 == Outcome(hooks, h[n].tag, UnfoldKids(h, ids, n), hooks.pre(h[n].tag, more))
  {
    var answer := hooks.pre(h[n].tag, more);
    if !answer.DropPre? {
      var below := Answered(answer, h[n].tag, ids).1;
      AnsweredRewrites(hooks, h, ids, n, h[n].tag, answer);
      AnsweredDrawn(answer, h[n].tag, ids);
      VisitKidsGood(hooks, h, los, ids, below, n, done);
    }
  }

  lemma AnsweredDrawn(answer: Pre, tag: string, ids: seq<Option<Id>>)
    requires !answer.DropPre?
    ensures Drawn(Answered(answer, tag, ids).1, ids)
  {
  }

  /** Below a node left alone, the last child becomes what it becomes in plain rewriting. */
  lemma LastBelowAlone(hooks: Hooks, alone: string, h: Heap, root: Id, first: seq<Option<Id>>, n: Id)
    requires LeavesAlone(hooks, alone) && ForwardingIsPlain(hooks) && Acyclic(h) && root < |h|
    requires h[root] == NodeData(alone, first + [Some(n)])
    ensures KidsBelow(first, root) && n < root
    ensures Visit(hooks, true, h, n, VisitKids(hooks, true, h, first, root, map[]).1).0 == Rewrite(hooks, Unfold(h, n))
  {
    var kids := first + [Some(n)];
    assert kids[|first|] == Some(n) && forall i | 0 <= i < |first| :: kids[i] == first[i];
    LastVisited(hooks, h, first, n, root, map[]);
    VisitAlone(hooks, h, root);
    RewriteAlone(hooks, Unfold(h, root));
    assert UnfoldKids(h, kids, root)[|first|] == Some(Unfold(h, n));
  }

  lemma VisitAlone(hooks: Hooks, h: Heap, root: Id)
    requires Acyclic(h) && root < |h| && LeavesAlone(hooks, h[root].tag)
    ensures Visit(hooks, true, h, root, map[]).0 ==
            Some(Node(h[root].tag, VisitKids(hooks, true, h, h[root].kids, root, map[]).0))
  {
    var tag, kids := h[root].tag, h[root].kids;
    assert hooks.pre(tag, SeenKids(h, kids, root, map[], true)) == KeepPre;
    assert hooks.post(tag, VisitKids(hooks, true, h, kids, root, map[]).0) == KeepPost;
  }

  lemma RewriteAlone(hooks: Hooks, t: Tree)
    requires LeavesAlone(hooks, t.tag)
    ensures Rewrite(hooks, t) == Some(Node(t.tag, RewriteKids(hooks, t.kids)))
  {
    assert hooks.pre(t.tag, t.kids) == KeepPre && hooks.post(t.tag, RewriteKids(hooks, t.kids)) == KeepPost;
  }

  lemma {:induction false} LastVisited(hooks: Hooks, h: Heap, first: seq<Option<Id>>, n: Id, bound: Id, done: Finished)
    requires Acyclic(h) && bound <= |h| && KidsBelow(first, bound) && n < bound
    ensures KidsBelow(first + [Some(n)], bound)
    ensures var trees := VisitKids(hooks, true, h, first + [Some(n)], bound, done).0;
            trees[|first|] == Visit(hooks, true, h, n, VisitKids(hooks, true, h, first, bound, done).1).0
    decreases |first|
  {
    var kids := first + [Some(n)];
    if first == [] {
      assert kids == [Some(n)];
    } else {
      assert kids[0] == first[0] && kids[1..] == first[1..] + [Some(n)];
      LastVisited(hooks, h, first[1..], n, bound, VisitKid(hooks, true, h, first[0], bound, done).1);
    }
  }
}
