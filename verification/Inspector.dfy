/** `Inspector::apply_visitor` and its tracker: a read-only walk that sees each node once. */
module Inspection {
  import opened Wrappers
  import opened Dag

  datatype Info = Info(done: bool, visitOnce: bool)

  /** The nodes a walk from `n` meets, when `descend` says which preorder hooks return true. */
  function Reached(h: Heap, descend: Id -> bool, n: Id): set<Id>
    requires Acyclic(h) && n < |h|
    decreases n, 1
  {
    {n} + (if descend(n) then ReachedFrom(h, descend, h[n].kids, n) else {})
  }

  function ReachedFrom(h: Heap, descend: Id -> bool, kids: seq<Option<Id>>, bound: Id): set<Id>
    requires Acyclic(h) && bound <= |h| && KidsBelow(kids, bound)
    decreases bound, 0, |kids|
  {
    if kids == [] then {}
    else
      (if kids[0].Some? then Reached(h, descend, kids[0].value) else {}) + ReachedFrom(h, descend, kids[1..], bound)
  }

  lemma {:induction false} ReachedBelow(h: Heap, descend: Id -> bool, n: Id)
    requires Acyclic(h) && n < |h|
    ensures forall m <- Reached(h, descend, n) :: m <= n
    decreases n, 1
  {
    if descend(n) { ReachedFromBelow(h, descend, h[n].kids, n); }
  }

  lemma {:induction false} ReachedFromBelow(h: Heap, descend: Id -> bool, kids: seq<Option<Id>>, bound: Id)
    requires Acyclic(h) && bound <= |h| && KidsBelow(kids, bound)
    ensures forall m <- ReachedFrom(h, descend, kids, bound) :: m < bound
    ensures forall k | 0 <= k < |kids| && kids[k].Some? :: kids[k].value in ReachedFrom(h, descend, kids, bound)
    decreases bound, 0, |kids|
  {
    if kids != [] {
      if kids[0].Some? { ReachedBelow(h, descend, kids[0].value); }
      ReachedFromBelow(h, descend, kids[1..], bound);
      forall k | 0 <= k < |kids| && kids[k].Some? ensures kids[k].value in ReachedFrom(h, descend, kids, bound) {
        if k > 0 { assert kids[1..][k - 1] == kids[k]; }
      }
    }
  }

  lemma {:induction false} ReachedFromSnoc(h: Heap, descend: Id -> bool, kids: seq<Option<Id>>, last: Option<Id>, bound: Id)
    requires Acyclic(h) && bound <= |h| && KidsBelow(kids, bound) && (last.Some? ==> last.value < bound)
    ensures KidsBelow(kids + [last], bound)
    ensures ReachedFrom(h, descend, kids + [last], bound) ==
            ReachedFrom(h, descend, kids, bound) + (if last.Some? then Reached(h, descend, last.value) else {})
    decreases |kids|
  {
    if kids == [] {
      assert kids + [last] == [last] && [last][1..] == [];
    } else {
      ReachedFromSnoc(h, descend, kids[1..], last, bound);
      assert (kids + [last])[1..] == kids[1..] + [last];
    }
  }

  /** From each node to one of its children, where the preorder hook returned true. */
  predicate IsWalk(h: Heap, descend: Id -> bool, walk: seq<Id>) {
    && walk != [] && (forall i | 0 <= i < |walk| :: walk[i] < |h|)
    && forall i | 0 <= i < |walk| - 1 :: descend(walk[i]) && Some(walk[i + 1]) in h[walk[i]].kids
  }

  ghost predicate Leads(h: Heap, descend: Id -> bool, n: Id, m: Id) {
    exists walk :: IsWalk(h, descend, walk) && walk[0] == n && walk[|walk| - 1] == m
  }

  lemma {:induction false} ReachedFromIs(h: Heap, descend: Id -> bool, kids: seq<Option<Id>>, bound: Id, m: Id)
    requires Acyclic(h) && bound <= |h| && KidsBelow(kids, bound)
    ensures m in ReachedFrom(h, descend, kids, bound) <==>
              exists k | 0 <= k < |kids| && kids[k].Some? :: m in Reached(h, descend, kids[k].value)
    decreases |kids|
  {
    if kids != [] {
      ReachedFromIs(h, descend, kids[1..], bound, m);
      if k :| 0 <= k < |kids| && kids[k].Some? && m in Reached(h, descend, kids[k].value) {
        if k > 0 { assert kids[1..][k - 1] == kids[k]; }
      }
      if k :| 0 <= k < |kids[1..]| && kids[1..][k].Some? && m in Reached(h, descend, kids[1..][k].value) {
        assert kids[k + 1] == kids[1..][k];
      }
    }
  }

  /** Exactly what can be walked to is reached. */
  lemma {:induction false} ReachedExactly(h: Heap, descend: Id -> bool, n: Id, m: Id)
    requires Acyclic(h) && n < |h|
    ensures m in Reached(h, descend, n) <==> Leads(h, descend, n, m)
    decreases n
  {
    ReachedFromIs(h, descend, h[n].kids, n, m);
    forall k | 0 <= k < |h[n].kids| && h[n].kids[k].Some?
      ensures m in Reached(h, descend, h[n].kids[k].value) <==> Leads(h, descend, h[n].kids[k].value, m)
    {
      ReachedExactly(h, descend, h[n].kids[k].value, m);
    }
    if n == m { assert IsWalk(h, descend, [n]); }
    if descend(n) {
      if k :| 0 <= k < |h[n].kids| && h[n].kids[k].Some? && Leads(h, descend, h[n].kids[k].value, m) {
        StepFirst(h, descend, n, k, m);
      }
    }
    if Leads(h, descend, n, m) && n != m { var k := FirstStep(h, descend, n, m); }
  }

  lemma StepFirst(h: Heap, descend: Id -> bool, n: Id, k: nat, m: Id)
    requires n < |h| && descend(n) && k < |h[n].kids| && h[n].kids[k].Some? && Leads(h, descend, h[n].kids[k].value, m)
    ensures Leads(h, descend, n, m)
  {
    var walk :| IsWalk(h, descend, walk) && walk[0] == h[n].kids[k].value && walk[|walk| - 1] == m;
    assert IsWalk(h, descend, [n] + walk);
  }

  lemma FirstStep(h: Heap, descend: Id -> bool, n: Id, m: Id) returns (k: nat)
    requires Leads(h, descend, n, m) && n != m
    ensures n < |h| && descend(n) && k < |h[n].kids| && h[n].kids[k].Some? && Leads(h, descend, h[n].kids[k].value, m)
  {
    var walk :| IsWalk(h, descend, walk) && walk[0] == n && walk[|walk| - 1] == m;
    assert Some(walk[1]) in h[n].kids;
    k :| k < |h[n].kids| && h[n].kids[k] == Some(walk[1]);
    assert IsWalk(h, descend, walk[1..]);
  }

  // ---------------------------------------------------------------- the order of visits

  /** A walk of the whole unfolded tree, children in order, naming parents before or after them. */
  function Tour(h: Heap, descend: Id -> bool, n: Id, after: bool): seq<Id>
    requires Acyclic(h) && n < |h|
    decreases n, 2
  {
    var below := TourBelow(h, descend, n, after);
    if after then below + [n] else [n] + below
  }

  function TourBelow(h: Heap, descend: Id -> bool, n: Id, after: bool): seq<Id>
    requires Acyclic(h) && n < |h|
    decreases n, 1
  {
    if descend(n) then TourFrom(h, descend, h[n].kids, n, after) else []
  }

  function TourFrom(h: Heap, descend: Id -> bool, kids: seq<Option<Id>>, bound: Id, after: bool): seq<Id>
    requires Acyclic(h) && bound <= |h| && KidsBelow(kids, bound)
    decreases bound, 0, |kids|
  {
    if kids == [] then []
    else
      TourFrom(h, descend, kids[..|kids| - 1], bound, after) + TourOption(h, descend, kids[|kids| - 1], bound, after)
  }

  function TourOption(h: Heap, descend: Id -> bool, kid: Option<Id>, bound: Id, after: bool): seq<Id>
    requires Acyclic(h) && bound <= |h| && (kid.Some? ==> kid.value < bound)
    decreases bound, 0, 0
  {
    if kid.Some? then Tour(h, descend, kid.value, after) else []
  }

  /** `ids` and, in order, what is new of `more`. */
  function Extended(ids: seq<Id>, more: seq<Id>): seq<Id>
    decreases |more|
  {
    if more == [] then ids else Extended(if more[0] in ids then ids else ids + [more[0]], more[1..])
  }

  lemma {:induction false} ExtendedTwice(ids: seq<Id>, a: seq<Id>, b: seq<Id>)
    ensures Extended(ids, a + b) == Extended(Extended(ids, a), b)
    decreases |a|
  {
    if a == [] {
      assert a + b == b;
    } else {
      assert (a + b)[1..] == a[1..] + b;
      ExtendedTwice(if a[0] in ids then ids else ids + [a[0]], a[1..], b);
    }
  }

  lemma {:induction false} ExtendedByKnown(ids: seq<Id>, more: seq<Id>)
    requires forall x | x in more :: x in ids
    ensures Extended(ids, more) == ids
    decreases |more|
  {
    if more != [] { ExtendedByKnown(ids, more[1..]); }
  }

  lemma ExtendedByOne(ids: seq<Id>, n: Id)
    requires n !in ids
    ensures Extended(ids, [n]) == ids + [n]
  {
    assert [n][1..] == [];
  }

  lemma {:induction false} TourIsReached(h: Heap, descend: Id -> bool, n: Id, after: bool)
    requires Acyclic(h) && n < |h|
    ensures forall x | x in Tour(h, descend, n, after) :: x in Reached(h, descend, n)
    decreases n, 1
  {
    if descend(n) { TourFromIsReached(h, descend, h[n].kids, n, after); }
  }

  lemma {:induction false} TourFromIsReached(h: Heap, descend: Id -> bool, kids: seq<Option<Id>>, bound: Id, after: bool)
    requires Acyclic(h) && bound <= |h| && KidsBelow(kids, bound)
    ensures forall x | x in TourFrom(h, descend, kids, bound, after) :: x in ReachedFrom(h, descend, kids, bound)
    decreases bound, 0, |kids|
  {
    if kids != [] {
      var k := |kids| - 1;
      ReachedFromFirst(h, descend, kids, k, bound);
      assert kids[..k + 1] == kids;
      TourFromIsReached(h, descend, kids[..k], bound, after);
      if kids[k].Some? { TourIsReached(h, descend, kids[k].value, after); }
    }
  }

  /** Visiting a finished node again adds nothing. */
  lemma TourIsKnown(h: Heap, descend: Id -> bool, n: Id, after: bool, ids: seq<Id>)
    requires Acyclic(h) && n < |h| && forall m | m in Reached(h, descend, n) :: m in ids
    ensures Extended(ids, Tour(h, descend, n, after)) == ids
  {
    TourIsReached(h, descend, n, after);
    ExtendedByKnown(ids, Tour(h, descend, n, after));
  }

  predicate Distinct(ids: seq<Id>) {
    forall i, j | 0 <= i < j < |ids| :: ids[i] != ids[j]
  }

  type Visited = map<Id, Info>

  predicate IsFinished(v: Visited, n: Id) {
    n in v && v[n].done
  }

  function FinishedSet(v: Visited): set<Id> {
    set n | n in v && v[n].done
  }

  /** The nodes in progress are exactly the ancestors on the context stack. */
  ghost predicate StackOk(v: Visited, ctxt: seq<Id>) {
    && (forall n :: n in ctxt <==> n in v && !v[n].done)
    && (forall i, j | 0 <= i < j < |ctxt| :: ctxt[i] > ctxt[j])
  }

  /** One preorder call for each node seen, one finish for each node done. */
  ghost predicate OnceOk(v: Visited, preorders: seq<Id>, finished: seq<Id>) {
    && Distinct(preorders) && (forall n :: n in preorders <==> n in v)
    && Distinct(finished) && (forall n :: n in finished <==> IsFinished(v, n))
  }

  ghost predicate KidsIn(kids: seq<Option<Id>>, ids: seq<Id>) {
    forall k | 0 <= k < |kids| && kids[k].Some? :: kids[k].value in ids
  }

  /** Children finish before their parents. */
  ghost predicate OrderOk(h: Heap, descend: Id -> bool, finished: seq<Id>) {
    forall i | 0 <= i < |finished| && finished[i] < |h| && descend(finished[i]) ::
      KidsIn(h[finished[i]].kids, finished[..i])
  }

  function Filtered(descend: Id -> bool, ids: seq<Id>): seq<Id> {
    if ids == [] then []
    else
      var last := ids[|ids| - 1];
      Filtered(descend, ids[..|ids| - 1]) + (if descend(last) then [last] else [])
  }

  /** Whatever is finished has everything it reaches finished. */
  ghost predicate ClosedOk(h: Heap, descend: Id -> bool, v: Visited)
    requires Acyclic(h)
  {
    forall n: Id | n < |h| && IsFinished(v, n) :: Reached(h, descend, n) <= FinishedSet(v)
  }

  /** The postorder hook is called on finishing, unless the preorder hook returned false. */
  ghost predicate StateOk(h: Heap, descend: Id -> bool, v: Visited, ctxt: seq<Id>,
                          preorders: seq<Id>, finished: seq<Id>, postorders: seq<Id>)
    requires Acyclic(h)
  {
    && (forall n | n in v :: n < |h| && v[n].visitOnce)
    && StackOk(v, ctxt) && OnceOk(v, preorders, finished) && OrderOk(h, descend, finished)
    && ClosedOk(h, descend, v)
    && postorders == Filtered(descend, finished)
  }

  /** The table gains exactly `ids`, all finished; its old entries stay as they are. */
  ghost predicate AddsTo(v: Visited, v2: Visited, ids: set<Id>) {
    && v2.Keys == v.Keys + ids
    && (forall n | n in v :: v2[n] == v[n])
    && ids <= FinishedSet(v2)
  }

  lemma HasMember(ids: seq<Id>)
    ensures ids == [] || exists n :: n in ids
  {
    if ids != [] { assert ids[0] in ids; }
  }

  lemma NothingSeen(v: Visited, preorders: seq<Id>, finished: seq<Id>)
    requires v == map[] && OnceOk(v, preorders, finished)
    ensures preorders == [] && finished == []
  {
    HasMember(preorders);
    HasMember(finished);
  }

  lemma AddsThenCloses(v: Visited, v1: Visited, v2: Visited, n: Id, ids: set<Id>)
    requires n in v && n in ids && AddsTo(v, v1, ids - {n}) && v2 == v1[n := Info(true, true)]
    ensures v2.Keys == v.Keys + ids && ids <= FinishedSet(v2)
    ensures forall m | m in v && m != n :: v2[m] == v[m]
  {
    assert n in v1 && v1[n] == v[n];
    assert v2.Keys == v1.Keys == v.Keys + ids;
    forall m | m in ids ensures m in FinishedSet(v2) {
      assert m != n ==> m in FinishedSet(v1);
    }
  }

  lemma AddsCompose(v: Visited, v1: Visited, v2: Visited, ids: set<Id>, more: set<Id>)
    requires AddsTo(v, v1, ids) && AddsTo(v1, v2, more)
    ensures AddsTo(v, v2, ids + more)
  {
    forall n | n in ids ensures n in FinishedSet(v2) {
      assert v2[n] == v1[n];
    }
  }

  lemma StartIsSound(h: Heap, descend: Id -> bool, v: Visited, ctxt: seq<Id>,
                     preorders: seq<Id>, finished: seq<Id>, postorders: seq<Id>, n: Id)
    requires Acyclic(h) && StateOk(h, descend, v, ctxt, preorders, finished, postorders)
    requires n < |h| && n !in v && forall i | 0 <= i < |ctxt| :: n < ctxt[i]
    ensures StateOk(h, descend, v[n := Info(false, true)], ctxt + [n], preorders + [n], finished, postorders)
  {
    var v2 := v[n := Info(false, true)];
    forall m ensures m in ctxt + [n] <==> m in v2 && !v2[m].done {
      assert m in ctxt + [n] <==> m in ctxt || m == n;
    }
    forall m ensures m in preorders + [n] <==> m in v2 {
      assert m in preorders + [n] <==> m in preorders || m == n;
    }
    forall m ensures m in finished <==> IsFinished(v2, m) {
      assert IsFinished(v2, m) <==> IsFinished(v, m);
    }
    assert FinishedSet(v2) == FinishedSet(v);
  }

  lemma FinishKeepsClosed(h: Heap, descend: Id -> bool, v: Visited, n: Id)
    requires Acyclic(h) && ClosedOk(h, descend, v) && n < |h|
    requires Reached(h, descend, n) <= FinishedSet(v) + {n}
    ensures ClosedOk(h, descend, v[n := Info(true, true)])
  {
    var v2 := v[n := Info(true, true)];
    assert FinishedSet(v2) == FinishedSet(v) + {n};
    forall k: Id | k < |h| && IsFinished(v2, k) ensures Reached(h, descend, k) <= FinishedSet(v2) {
      assert k != n ==> IsFinished(v, k);
    }
  }

  lemma ReachedFromFirst(h: Heap, descend: Id -> bool, kids: seq<Option<Id>>, i: nat, bound: Id)
    requires Acyclic(h) && bound <= |h| && KidsBelow(kids, bound) && i < |kids|
    ensures KidsBelow(kids[..i], bound) && KidsBelow(kids[..i + 1], bound)
    ensures ReachedFrom(h, descend, kids[..i + 1], bound) ==
            ReachedFrom(h, descend, kids[..i], bound) + (if kids[i].Some? then Reached(h, descend, kids[i].value) else {})
  {
    assert kids[..i + 1] == kids[..i] + [kids[i]];
    ReachedFromSnoc(h, descend, kids[..i], kids[i], bound);
  }

  lemma TourNext(h: Heap, descend: Id -> bool, kids: seq<Option<Id>>, i: nat, bound: Id, after: bool, ids: seq<Id>)
    requires Acyclic(h) && bound <= |h| && KidsBelow(kids, bound) && i < |kids|
    ensures Extended(ids, TourFrom(h, descend, kids[..i + 1], bound, after)) ==
            Extended(Extended(ids, TourFrom(h, descend, kids[..i], bound, after)), TourOption(h, descend, kids[i], bound, after))
  {
    assert kids[..i + 1][..i] == kids[..i];
    ExtendedTwice(ids, TourFrom(h, descend, kids[..i], bound, after), TourOption(h, descend, kids[i], bound, after));
  }

  lemma KidsAreFinished(h: Heap, descend: Id -> bool, v: Visited, preorders: seq<Id>, finished: seq<Id>, n: Id)
    requires Acyclic(h) && n < |h| && OnceOk(v, preorders, finished)
    requires ReachedFrom(h, descend, h[n].kids, n) <= FinishedSet(v)
    ensures KidsIn(h[n].kids, finished)
  {
    ReachedFromBelow(h, descend, h[n].kids, n);
    forall k | 0 <= k < |h[n].kids| && h[n].kids[k].Some? ensures h[n].kids[k].value in finished {
      assert IsFinished(v, h[n].kids[k].value);
    }
  }

  lemma FinishIsSound(h: Heap, descend: Id -> bool, v: Visited, ctxt: seq<Id>,
                      preorders: seq<Id>, finished: seq<Id>, postorders: seq<Id>, n: Id)
    requires Acyclic(h) && StateOk(h, descend, v, ctxt, preorders, finished, postorders)
    requires ctxt != [] && ctxt[|ctxt| - 1] == n && n in v && n < |h|
    requires descend(n) ==> KidsIn(h[n].kids, finished)
    requires Reached(h, descend, n) <= FinishedSet(v) + {n}
    ensures StateOk(h, descend, v[n := Info(true, true)], ctxt[..|ctxt| - 1], preorders, finished + [n],
                    postorders + (if descend(n) then [n] else []))
  {
    var v2 := v[n := Info(true, true)];
    var up, all := ctxt[..|ctxt| - 1], finished + [n];
    forall m ensures m in up <==> m in v2 && !v2[m].done {
      assert m in ctxt <==> m in up || m == n;
      assert n !in up;
    }
    forall m ensures m in all <==> IsFinished(v2, m) {
      assert m in all <==> m in finished || m == n;
      assert m in finished <==> IsFinished(v, m);
    }
    forall m ensures m in preorders <==> m in v2 {
      assert m in preorders <==> m in v;
    }
    assert n !in finished by { assert n in ctxt; }
    forall i | 0 <= i < |all| && all[i] < |h| && descend(all[i]) ensures KidsIn(h[all[i]].kids, all[..i]) {
      if i < |finished| {
        assert all[..i] == finished[..i];
      } else {
        assert all[..i] == finished;
      }
    }
    assert all[..|all| - 1] == finished;
    FinishKeepsClosed(h, descend, v, n);
  }

  class Inspector {
    const heap: Heap
    const descend: Id -> bool
    var visited: map<Id, Info>
    var ctxt: seq<Id>
    /** The calls of the preorder hook, the nodes in the order they finish, the postorder calls. */
    var preorders: seq<Id>
    var finished: seq<Id>
    var postorders: seq<Id>

    constructor (heap: Heap, descend: Id -> bool)
      requires Acyclic(heap)
      ensures this.heap == heap && this.descend == descend
      ensures Valid() && visited == map[] && ctxt == []
    {
      this.heap := heap;
      this.descend := descend;
      visited := map[];
      ctxt, preorders, finished, postorders := [], [], [], [];
    }

    ghost predicate Valid()
      reads this
    {
      Acyclic(heap) && StateOk(heap, descend, visited, ctxt, preorders, finished, postorders)
    }

    method TryStart(n: Id, defaultVisitOnce: bool) returns (status: VisitStatus)
      modifies this`visited
      ensures n !in old(visited) ==> status == New && visited == old(visited)[n := Info(false, defaultVisitOnce)]
      ensures n in old(visited) ==>
                var info := old(visited[n]);
                if !info.done then status == Busy && visited == old(visited)
                else if info.visitOnce then status == Done && visited == old(visited)
                else status == Revisit && visited == old(visited)[n := info.(done := false)]
    {
      if n !in visited {
        visited := visited[n := Info(false, defaultVisitOnce)];
        return New;
      }
      if !visited[n].done { return Busy; }
      if visited[n].visitOnce { return Done; }
      visited := visited[n := visited[n].(done := false)];
      status := Revisit;
    }

    /** A node may be visited below its ancestors; everything finished earlier is closed below. */
    ghost predicate Visitable(n: Id)
      reads this
    {
      n < |heap| && forall i | 0 <= i < |ctxt| :: n < ctxt[i]
    }

    method Enter(n: Id) returns (status: VisitStatus)
      requires Valid() && Visitable(n)
      modifies this`visited, this`ctxt, this`preorders
      ensures old(n in visited) ==> status == Done && visited == old(visited) && ctxt == old(ctxt) &&
                                    preorders == old(preorders) && n in FinishedSet(visited)
      ensures n !in old(visited) ==>
                && status == New && Opened(n) && ctxt == old(ctxt) + [n]
                && visited == old(visited)[n := Info(false, true)] && preorders == old(preorders) + [n]
    {
      if n !in visited {
        StartIsSound(heap, descend, visited, ctxt, preorders, finished, postorders, n);
      }
      status := TryStart(n, true);
      if status == New {
        ctxt := ctxt + [n];
        preorders := preorders + [n];
      }
    }

    /** The nodes newly seen are exactly the given ones, and they are all finished. */
    twostate predicate Adds(ids: set<Id>)
      reads this
    {
      && ctxt == old(ctxt)
      && AddsTo(old(visited), visited, ids)
    }

    /** Both hooks are called for the nodes of these tours that are new, in order. */
    twostate predicate Calls(pre: seq<Id>, post: seq<Id>)
      reads this
    {
      preorders == Extended(old(preorders), pre) && finished == Extended(old(finished), post)
    }

    /** Walks the DAG below `n`. No node is ever met while it is in progress. */
    method ApplyVisitor(n: Option<Id>)
      requires Valid() && (n.Some? ==> Visitable(n.value))
      modifies this
      ensures Valid()
      ensures Adds(if n.Some? then Reached(heap, descend, n.value) else {})
      ensures Calls(TourOption(heap, descend, n, |heap|, false), TourOption(heap, descend, n, |heap|, true))
      decreases if n.Some? then n.value + 1 else 0, 2
    {
      if n.Some? { Visit(n.value); }
    }

    method Visit(n: Id)
      requires Valid() && Visitable(n)
      modifies this
      ensures Valid() && Adds(Reached(heap, descend, n)) && Calls(Tour(heap, descend, n, false), Tour(heap, descend, n, true))
      decreases n + 1, 1
    {
      ghost var p, c := preorders, ctxt;
      var status := Enter(n);
      if status == New {
        VisitNew(n, p);
        assert c == (c + [n])[..|c|];
      } else {
        OldCalls(n);
      }
    }

    lemma NewCalls(n: Id, p: seq<Id>, p2: seq<Id>, f: seq<Id>, f2: seq<Id>)
      requires Acyclic(heap) && n < |heap| && n !in p
      requires p2 == Extended(p + [n], TourBelow(heap, descend, n, false))
      requires f2 == Extended(f, TourBelow(heap, descend, n, true)) + [n] && n !in Extended(f, TourBelow(heap, descend, n, true))
      ensures p2 == Extended(p, Tour(heap, descend, n, false)) && f2 == Extended(f, Tour(heap, descend, n, true))
    {
      ExtendedTwice(p, [n], TourBelow(heap, descend, n, false));
      ExtendedByOne(p, n);
      ExtendedTwice(f, TourBelow(heap, descend, n, true), [n]);
      ExtendedByOne(Extended(f, TourBelow(heap, descend, n, true)), n);
    }

    lemma OldCalls(n: Id)
      requires Valid() && n < |heap| && n in FinishedSet(visited)
      ensures Extended(preorders, Tour(heap, descend, n, false)) == preorders
      ensures Extended(finished, Tour(heap, descend, n, true)) == finished
    {
      forall m | m in Reached(heap, descend, n) ensures m in preorders && m in finished {
        assert m in FinishedSet(visited);
      }
      TourIsKnown(heap, descend, n, false, preorders);
      TourIsKnown(heap, descend, n, true, finished);
    }

    /** `n` has just been started. */
    ghost predicate Opened(n: Id)
      reads this
    {
      Valid() && ctxt != [] && ctxt[|ctxt| - 1] == n && n in visited && !visited[n].done
    }

    /** `p` are the calls before that for `n`. */
    method VisitNew(n: Id, ghost p: seq<Id>)
      requires Opened(n) && preorders == p + [n] && n !in p
      modifies this
      ensures Valid()
      ensures ctxt == old(ctxt)[..|old(ctxt)| - 1]
      ensures visited.Keys == old(visited.Keys) + Reached(heap, descend, n)
      ensures forall m | m in old(visited) && m != n :: visited[m] == old(visited[m])
      ensures Reached(heap, descend, n) <= FinishedSet(visited)
      ensures n < |heap| && preorders == Extended(p, Tour(heap, descend, n, false))
      ensures finished == Extended(old(finished), Tour(heap, descend, n, true))
      decreases n + 1, 0
    {
      Descend(n);
      ghost var v1 := visited;
      assert n !in finished;
      Close(n);
      AddsThenCloses(old(visited), v1, visited, n, Reached(heap, descend, n));
      NewCalls(n, p, preorders, old(finished), finished);
    }

    /** Visits the children if the preorder hook wants that. */
    method Descend(n: Id)
      requires Opened(n)
      modifies this
      ensures Opened(n) && Adds(Reached(heap, descend, n) - {n}) && (descend(n) ==> KidsIn(heap[n].kids, finished))
      ensures n < |heap| && Calls(TourBelow(heap, descend, n, false), TourBelow(heap, descend, n, true))
      decreases n, 5
    {
      ReachedBelow(heap, descend, n);
      if descend(n) {
        ReachedFromBelow(heap, descend, heap[n].kids, n);
        VisitChildren(n);
        KidsAreFinished(heap, descend, visited, preorders, finished, n);
      }
    }

    /** The postorder call, `finish`, and leaving the context of `n`. */
    method Close(n: Id)
      requires Opened(n) && n < |heap| && Reached(heap, descend, n) <= FinishedSet(visited) + {n}
      requires descend(n) ==> KidsIn(heap[n].kids, finished)
      modifies this
      ensures Valid() && ctxt == old(ctxt)[..|old(ctxt)| - 1] && visited == old(visited)[n := Info(true, true)]
      ensures preorders == old(preorders) && finished == old(finished) + [n]
    {
      FinishIsSound(heap, descend, visited, ctxt, preorders, finished, postorders, n);
      if descend(n) {
        postorders := postorders + [n];
      }
      visited := visited[n := visited[n].(done := true)];
      finished := finished + [n];
      ctxt := ctxt[..|ctxt| - 1];
    }

    method VisitKid(n: Id, i: nat)
      requires Opened(n) && n < |heap| && i < |heap[n].kids|
      modifies this
      ensures Opened(n) && Adds(if heap[n].kids[i].Some? then Reached(heap, descend, heap[n].kids[i].value) else {})
      ensures Calls(TourOption(heap, descend, heap[n].kids[i], n, false), TourOption(heap, descend, heap[n].kids[i], n, true))
      decreases n, 3
    {
      ApplyVisitor(heap[n].kids[i]);
    }

    method VisitChildren(n: Id)
      requires Opened(n)
      modifies this
      ensures Opened(n)
      ensures Adds(ReachedFrom(heap, descend, heap[n].kids, n))
      ensures Calls(TourFrom(heap, descend, heap[n].kids, n, false), TourFrom(heap, descend, heap[n].kids, n, true))
      decreases n, 4
    {
      var kids := heap[n].kids;
      assert kids[..0] == [];
      for i := 0 to |kids|
        invariant Opened(n)
        invariant Adds(ReachedFrom(heap, descend, kids[..i], n))
        invariant Calls(TourFrom(heap, descend, kids[..i], n, false), TourFrom(heap, descend, kids[..i], n, true))
      {
        ReachedFromFirst(heap, descend, kids, i, n);
        ghost var v1 := visited;
        VisitKid(n, i);
        TourNext(heap, descend, kids, i, n, false, old(preorders));
        TourNext(heap, descend, kids, i, n, true, old(finished));
        AddsCompose(old(visited), v1, visited, ReachedFrom(heap, descend, kids[..i], n),
                    if kids[i].Some? then Reached(heap, descend, kids[i].value) else {});
      }
      assert kids[..|kids|] == kids;
    }

    /** Applied to a root of any acyclic IR: the preorder hook sees each node the root reaches, once
        and no other; each of them finishes once, after its children; the stack is empty again. Both
        happen depth first, children in order. */
    method Apply(root: Id)
      requires Valid() && visited == map[] && ctxt == [] && root < |heap|
      modifies this
      ensures Distinct(preorders) && (forall n :: n in preorders <==> n in Reached(heap, descend, root))
      ensures Distinct(finished) && (forall n :: n in finished <==> n in Reached(heap, descend, root))
      ensures OrderOk(heap, descend, finished) && postorders == Filtered(descend, finished)
      ensures preorders == Extended([], Tour(heap, descend, root, false))
      ensures finished == Extended([], Tour(heap, descend, root, true))
      ensures ctxt == []
    {
      NothingSeen(visited, preorders, finished);
      ApplyVisitor(Some(root));
      assert forall n :: n in FinishedSet(visited) <==> n in Reached(heap, descend, root);
      visited := map[];
    }
  }
}
