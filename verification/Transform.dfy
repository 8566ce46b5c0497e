/** `Transform::apply_visitor` and its change tracker. */
module Transformer {
  import opened Wrappers
  import opened Dag
  import Inspection
  import Memo

  datatype VisitInfo = VisitInfo(inProgress: bool, visitOnce: bool, result: Option<Id>)

  type Visited = map<Id, VisitInfo>

  predicate IsDone(v: Visited, n: Id) {
    n in v && !v[n].inProgress && v[n].visitOnce
  }

  /** `n` is finished and is its own result: visiting it again gives `n` back. */
  predicate IsSettled(v: Visited, n: Id) {
    IsDone(v, n) && v[n].result == Some(n)
  }

  /** `ChangeTracker::finish`: the table afterwards, and whether the node counts as changed. */
  function Finish(v: Visited, h: Heap, forceClone: bool, orig: Id, final: Option<Id>): (Visited, bool)
    requires orig in v && orig < |h| && (final.Some? ==> final.value < |h|)
  {
    var info := v[orig].(inProgress := false);
    if final.None? then (v[orig := info.(result := None)], true)
    else if forceClone || (final.value != orig && h[final.value] != h[orig]) then
      var v1 := v[orig := info.(result := final)];
      (if final.value in v1 then v1 else v1[final.value := VisitInfo(false, info.visitOnce, final)], true)
    else if final.value in v then (v[orig := info.(result := final)], true)
    else (v[orig := info], false)
  }

  /** A child as `ForwardChildren` leaves it: its result when it is finished and that is not null,
      otherwise itself. */
  function Forward(v: Visited, kid: Option<Id>): Option<Id> {
    if kid.Some? && IsDone(v, kid.value) && v[kid.value].result.Some? then v[kid.value].result else kid
  }

  /** `kid` is `orig`, or what `orig` has become. */
  predicate Forwarded(v: Visited, kid: Option<Id>, orig: Option<Id>) {
    kid == orig || (orig.Some? && IsDone(v, orig.value) && kid.Some? && v[orig.value].result == kid)
  }

  ghost predicate AllForwarded(v: Visited, kids: seq<Option<Id>>, orig: seq<Option<Id>>) {
    |kids| == |orig| && forall i | 0 <= i < |kids| :: Forwarded(v, kids[i], orig[i])
  }

  lemma SelectForwarded(v: Visited, kids: seq<Option<Id>>, orig: seq<Option<Id>>, select: seq<nat>)
    requires AllForwarded(v, kids, orig)
    ensures AllForwarded(v, Select(kids, select), Select(orig, select))
  {
  }

  ghost predicate AllSettled(v: Visited, kids: seq<Option<Id>>) {
    forall i | 0 <= i < |kids| && kids[i].Some? :: IsSettled(v, kids[i].value)
  }

  ghost predicate TableOk(v: Visited, h: Heap) {
    && (forall n | n in v :: n < |h| && v[n].visitOnce)
    && (forall n | n in v && v[n].result.Some? :: v[n].result.value < |h|)
    && (forall n | n in v && !v[n].inProgress && v[n].result.Some? :: IsSettled(v, v[n].result.value))
  }

  /** The result recorded for a finished original is what the traversal on trees makes of it; for an
      untouched one it is the very same node. */
  ghost predicate RightResult(hooks: Hooks, forceClone: bool, source: Heap, h: Heap, n: Id, result: Option<Id>, tree: Option<Tree>)
    requires Acyclic(source) && Acyclic(h) && n < |source| && (result.Some? ==> result.value < |h|)
  {
    && UnfoldOption(h, result) == tree
    && (!forceClone && Untouched(hooks, Unfold(source, n)) ==> result == Some(n))
  }

  ghost predicate ResultsOk(hooks: Hooks, forceClone: bool, source: Heap, h: Heap, v: Visited, done: Memo.Finished)
    requires Acyclic(source) && Acyclic(h) && TableOk(v, h)
  {
    && (forall n: Id :: n in done <==> n < |source| && n in v && !v[n].inProgress)
    && (forall n: Id | n in done :: RightResult(hooks, forceClone, source, h, n, v[n].result, done[n]))
  }

  /** The originals in progress are exactly the ancestors on the context stack. */
  ghost predicate ContextOk(source: Heap, v: Visited, ctxt: seq<Id>) {
    && (forall n: Id | n < |source| :: (n in v && v[n].inProgress) <==> n in ctxt)
    && (forall i | 0 <= i < |ctxt| :: ctxt[i] < |source|)
    && (forall i, j | 0 <= i < j < |ctxt| :: ctxt[i] > ctxt[j])
  }

  /** Each original in the table was given to the preorder hook, and once. */
  ghost predicate OnceOk(source: Heap, v: Visited, preorders: seq<Id>) {
    && (forall i, j | 0 <= i < j < |preorders| :: preorders[i] != preorders[j])
    && (forall n :: n in preorders <==> n in v && n < |source|)
  }

  /** From one table to another: entries stay, and the new ones, but for `p`, are finished. */
  ghost predicate Adds(v: Visited, v2: Visited, p: Option<Id>, done: Memo.Finished, done2: Memo.Finished) {
    && (forall m | m in v :: m in v2 && v2[m] == v[m])
    && (forall m | m in v2 && m !in v && p != Some(m) :: !v2[m].inProgress)
    && Remembers(done, done2)
  }

  /** The same but for the entries of `n` and its replacement `p`, which are being finished. */
  ghost predicate AddsBut(v: Visited, v2: Visited, n: Id, p: Option<Id>, done: Memo.Finished, done2: Memo.Finished) {
    && (forall m | m in v && m != n && p != Some(m) :: m in v2 && v2[m] == v[m])
    && (forall m | m in v2 && m !in v :: !v2[m].inProgress)
    && Remembers(done, done2)
  }

  ghost predicate Remembers(done: Memo.Finished, done2: Memo.Finished) {
    forall m | m in done :: m in done2 && done2[m] == done[m]
  }

  lemma AddsTwice(v: Visited, v1: Visited, v2: Visited, done: Memo.Finished, done1: Memo.Finished, done2: Memo.Finished)
    requires Adds(v, v1, None, done, done1) && Adds(v1, v2, None, done1, done2)
    ensures Adds(v, v2, None, done, done2)
  {
  }

  lemma AddsAndFinishes(v: Visited, v1: Visited, v2: Visited, n: Id, p: Option<Id>,
                        done: Memo.Finished, done1: Memo.Finished, done2: Memo.Finished)
    requires n in v && Adds(v, v1, p, done, done1) && AddsBut(v1, v2, n, p, done1, done2)
    requires p.Some? ==> p.value !in v && IsDone(v2, p.value)
    ensures AddsBut(v, v2, n, None, done, done2)
  {
  }

  /** A new node started, visited and finished. */
  lemma StartsAndFinishes(v: Visited, v1: Visited, v2: Visited, n: Id, done: Memo.Finished, done2: Memo.Finished)
    requires n !in v && v1 == v[n := VisitInfo(true, true, Some(n))]
    requires AddsBut(v1, v2, n, None, done, done2) && IsDone(v2, n)
    ensures Adds(v, v2, None, done, done2)
  {
  }

  /** What a hook may hand over as final result: a new node, the preorder result, or a settled node. */
  predicate FinalResult(v: Visited, originals: nat, p: Option<Id>, final: Id) {
    (final >= originals && final !in v) || Some(final) == p || IsSettled(v, final)
  }

  /** The table after `finish` of a node and, if the preorder hook replaced it, of the replacement. */
  function FinishBoth(v: Visited, h: Heap, forceClone: bool, n: Id, p: Option<Id>, final: Option<Id>): Visited
    requires n in v && n < |h| && (p.Some? ==> p.value in v && p.value < |h|)
    requires final.Some? ==> final.value < |h|
  {
    var v1 := Finish(v, h, forceClone, n, final).0;
    if p.Some? then Finish(v1, h, forceClone, p.value, final).0 else v1
  }

  /** Every non-null result is itself a finished entry that maps to itself. */
  lemma FinishSettles(v: Visited, h: Heap, forceClone: bool, originals: nat, n: Id, p: Option<Id>, final: Option<Id>)
    requires n in v && n < |h| && v[n] == VisitInfo(true, true, Some(n))
    requires p.Some? ==> p != Some(n) && p.value in v && p.value < |h| && v[p.value] == VisitInfo(true, true, p)
    requires final.Some? ==> final.value < |h| && FinalResult(v, originals, p, final.value)
    ensures Settles(v, FinishBoth(v, h, forceClone, n, p, final), h, originals, n, p, final)
    ensures FinishBoth(v, h, forceClone, n, p, final)[n].result ==
            (if Finish(v, h, forceClone, n, final).1 then final else Some(n))
    ensures !forceClone && p.None? && final.Some? && final.value !in v && h[final.value] == h[n] ==>
              FinishBoth(v, h, forceClone, n, p, final)[n].result == Some(n)
  {
    FinishOne(v, h, forceClone, originals, n, p, final);
    if p.Some? { FinishReplacement(v, h, forceClone, originals, n, p.value, final); }
  }

  /** After the first `finish`, before that of the replacement. */
  ghost predicate HalfSettled(v: Visited, v1: Visited, h: Heap, originals: nat, n: Id, p: Option<Id>, final: Option<Id>)
    requires final.Some? ==> final.value < |h|
  {
    && IsDone(v1, n)
    && (v1[n].result.Some? <==> final.Some?)
    && (final.Some? ==> v1[n].result.value < |h| && h[v1[n].result.value] == h[final.value])
    && (final.Some? ==> p == v1[n].result || IsSettled(v1, v1[n].result.value))
    && (forall m | m in v && m != n :: m in v1 && v1[m] == v[m])
    && (forall m | m in v1 && m !in v :: final == Some(m) && m >= originals && IsSettled(v1, m))
  }

  lemma FinishOne(v: Visited, h: Heap, forceClone: bool, originals: nat, n: Id, p: Option<Id>, final: Option<Id>)
    requires n in v && n < |h| && v[n] == VisitInfo(true, true, Some(n))
    requires p.Some? ==> p.value in v
    requires final.Some? ==> final.value < |h| && FinalResult(v, originals, p, final.value)
    ensures var (v1, changed) := Finish(v, h, forceClone, n, final);
            HalfSettled(v, v1, h, originals, n, p, final) && v1[n].result == if changed then final else Some(n)
  {
  }

  lemma FinishReplacement(v: Visited, h: Heap, forceClone: bool, originals: nat, n: Id, p: Id, final: Option<Id>)
    requires n in v && n < |h| && v[n] == VisitInfo(true, true, Some(n))
    requires p != n && p in v && p < |h| && v[p] == VisitInfo(true, true, Some(p))
    requires final.Some? ==> final.value < |h| && FinalResult(v, originals, Some(p), final.value)
    ensures Settles(v, FinishBoth(v, h, forceClone, n, Some(p), final), h, originals, n, Some(p), final)
    ensures FinishBoth(v, h, forceClone, n, Some(p), final)[n] == Finish(v, h, forceClone, n, final).0[n]
  {
    FinishOne(v, h, forceClone, originals, n, Some(p), final);
  }

  /** `v2` is `v` with `n` and its replacement `p` finished on account of the final result. */
  ghost predicate Settles(v: Visited, v2: Visited, h: Heap, originals: nat, n: Id, p: Option<Id>, final: Option<Id>)
    requires final.Some? ==> final.value < |h|
  {
    && IsDone(v2, n)
    && (v2[n].result.Some? <==> final.Some?)
    && (final.Some? ==> v2[n].result.value < |h| && h[v2[n].result.value] == h[final.value])
    && (final.Some? ==> IsSettled(v2, v2[n].result.value))
    && (p.Some? ==> IsDone(v2, p.value))
    && (p.Some? && v2[p.value].result.Some? ==>
          v2[p.value].result.value < |h| && IsSettled(v2, v2[p.value].result.value))
    && (forall m | m in v && m != n && p != Some(m) :: m in v2 && v2[m] == v[m])
    && (forall m | m in v2 && m !in v :: final == Some(m) && m >= originals && IsSettled(v2, m))
  }

  lemma TableStaysOk(v: Visited, v2: Visited, h: Heap, originals: nat, n: Id, p: Option<Id>, final: Option<Id>)
    requires TableOk(v, h) && n in v && v[n].inProgress
    requires p.Some? ==> p.value in v && v[p.value].inProgress
    requires final.Some? ==> final.value < |h|
    requires Settles(v, v2, h, originals, n, p, final)
    ensures TableOk(v2, h)
  {
    forall m | m in v2 ensures m < |h| && v2[m].visitOnce {
      if m in v && m != n && p != Some(m) { assert v2[m] == v[m]; }
    }
    forall m | m in v2 && v2[m].result.Some? ensures v2[m].result.value < |h| {
      if m in v && m != n && p != Some(m) { assert v2[m] == v[m]; }
    }
    forall m | m in v2 && !v2[m].inProgress && v2[m].result.Some? ensures IsSettled(v2, v2[m].result.value) {
      if m in v && m != n && p != Some(m) {
        assert IsSettled(v, v[m].result.value);
      }
    }
  }

  lemma ContextStaysOk(source: Heap, v: Visited, v2: Visited, h: Heap, ctxt: seq<Id>, n: Id, p: Option<Id>, final: Option<Id>)
    requires final.Some? ==> final.value < |h|
    requires Settles(v, v2, h, |source|, n, p, final)
    requires p.Some? ==> |source| <= p.value
    requires ContextOk(source, v, ctxt) && ctxt != [] && ctxt[|ctxt| - 1] == n
    ensures ContextOk(source, v2, ctxt[..|ctxt| - 1])
  {
    var up := ctxt[..|ctxt| - 1];
    forall m: Id | m < |source| ensures (m in v2 && v2[m].inProgress) <==> m in up {
      assert m in ctxt <==> m in up || m == n;
      assert n !in up;
    }
  }

  lemma ResultsStayOk(hooks: Hooks, forceClone: bool, source: Heap, v: Visited, v2: Visited, h: Heap,
                      n: Id, p: Option<Id>, final: Option<Id>, done: Memo.Finished)
    requires Acyclic(source) && Acyclic(h) && TableOk(v, h) && TableOk(v2, h)
    requires ResultsOk(hooks, forceClone, source, h, v, done)
    requires n < |source| && (final.Some? ==> final.value < |h|) && (p.Some? ==> |source| <= p.value)
    requires Settles(v, v2, h, |source|, n, p, final)
    requires !forceClone && Untouched(hooks, Unfold(source, n)) ==> v2[n].result == Some(n)
    ensures ResultsOk(hooks, forceClone, source, h, v2, done[n := UnfoldOption(h, final)])
  {
    var more := done[n := UnfoldOption(h, final)];
    if final.Some? {
      UnfoldIsByContent(h, final.value, v2[n].result.value);
    }
    forall m: Id ensures m in more <==> m < |source| && m in v2 && !v2[m].inProgress {
      if m in v && m != n && p != Some(m) { assert v2[m] == v[m]; }
    }
    forall m: Id | m in more
      ensures RightResult(hooks, forceClone, source, h, m, v2[m].result, more[m])
    {
      if m != n { assert m in v && v2[m] == v[m]; }
    }
  }

  lemma ConcludeIsSound(hooks: Hooks, forceClone: bool, source: Heap, h: Heap, v: Visited, ctxt: seq<Id>,
                        preorders: seq<Id>, n: Id, p: Option<Id>, final: Option<Id>, v2: Visited, done: Memo.Finished)
    requires Acyclic(source) && Acyclic(h) && source <= h && TableOk(v, h)
    requires ResultsOk(hooks, forceClone, source, h, v, done) && ContextOk(source, v, ctxt) && OnceOk(source, v, preorders)
    requires ctxt != [] && ctxt[|ctxt| - 1] == n && n in v && n < |source| && v[n].inProgress
    requires p.Some? ==> |source| <= p.value && p.value in v && v[p.value].inProgress
    requires final.Some? ==> final.value < |h|
    requires Settles(v, v2, h, |source|, n, p, final)
    requires !forceClone && Untouched(hooks, Unfold(source, n)) ==> v2[n].result == Some(n)
    ensures TableOk(v2, h)
    ensures ResultsOk(hooks, forceClone, source, h, v2, done[n := UnfoldOption(h, final)])
    ensures ContextOk(source, v2, ctxt[..|ctxt| - 1])
    ensures OnceOk(source, v2, preorders)
  {
    TableStaysOk(v, v2, h, |source|, n, p, final);
    ContextStaysOk(source, v, v2, h, ctxt, n, p, final);
    ResultsStayOk(hooks, forceClone, source, v, v2, h, n, p, final, done);
  }

  lemma ConcludeAdds(v: Visited, v1: Visited, v2: Visited, h: Heap, originals: nat, n: Id, p: Option<Id>, final: Option<Id>,
                     done: Memo.Finished, done1: Memo.Finished, done2: Memo.Finished)
    requires n in v && n in v1 && (p.Some? ==> p.value in v1 && p.value !in v) && (final.Some? ==> final.value < |h|)
    requires Settles(v1, v2, h, originals, n, p, final)
    requires Adds(v, v1, p, done, done1) && Remembers(done1, done2)
    ensures AddsBut(v, v2, n, None, done, done2)
  {
    AddsAndFinishes(v, v1, v2, n, p, done, done1, done2);
  }

  lemma UnfoldIsByContent(h: Heap, n: Id, m: Id)
    requires Acyclic(h) && n < |h| && m < |h| && h[n] == h[m]
    ensures Unfold(h, n) == Unfold(h, m)
  {
    assert UnfoldKids(h, h[n].kids, n) == UnfoldKids(h, h[m].kids, m);
  }

  /** New nodes do not disturb what is in the table. */
  lemma GrowIsSound(hooks: Hooks, forceClone: bool, source: Heap, h: Heap, g: Heap, v: Visited, done: Memo.Finished)
    requires Acyclic(source) && Acyclic(h) && Acyclic(g) && h <= g && TableOk(v, h)
    requires ResultsOk(hooks, forceClone, source, h, v, done)
    ensures TableOk(v, g) && ResultsOk(hooks, forceClone, source, g, v, done)
  {
    forall n: Id | n in done ensures RightResult(hooks, forceClone, source, g, n, v[n].result, done[n]) {
      assert RightResult(hooks, forceClone, source, h, n, v[n].result, done[n]);
      if v[n].result.Some? { UnfoldIsStable(h, g, v[n].result.value); }
    }
  }

  /** The preorder hook sees the children that the traversal on trees shows it. */
  lemma SeesForwarded(hooks: Hooks, forceClone: bool, forward: bool, source: Heap, h: Heap, v: Visited, done: Memo.Finished,
                      kids: seq<Option<Id>>, orig: seq<Option<Id>>, bound: Id)
    requires Acyclic(source) && Acyclic(h) && source <= h && TableOk(v, h)
    requires ResultsOk(hooks, forceClone, source, h, v, done)
    requires bound <= |source| && KidsBelow(orig, bound) && KidsBelow(kids, |h|) && |kids| == |orig|
    requires forall i | 0 <= i < |kids| :: kids[i] == if forward then Forward(v, orig[i]) else orig[i]
    ensures UnfoldKids(h, kids, |h|) == Memo.SeenKids(source, orig, bound, done, forward)
  {
    forall i | 0 <= i < |kids| ensures UnfoldOption(h, kids[i]) == Memo.Seen(source, orig[i], done, forward) {
      KidIsSeen(hooks, forceClone, forward, source, h, v, done, kids[i], orig[i]);
    }
  }

  lemma KidIsSeen(hooks: Hooks, forceClone: bool, forward: bool, source: Heap, h: Heap, v: Visited, done: Memo.Finished,
                  kid: Option<Id>, orig: Option<Id>)
    requires Acyclic(source) && Acyclic(h) && source <= h && TableOk(v, h)
    requires ResultsOk(hooks, forceClone, source, h, v, done)
    requires (orig.Some? ==> orig.value < |source|) && kid == if forward then Forward(v, orig) else orig
    ensures kid.Some? ==> kid.value < |h|
    ensures UnfoldOption(h, kid) == Memo.Seen(source, orig, done, forward)
  {
    if orig.Some? {
      UnfoldIsStable(source, h, orig.value);
      if orig.value in done {
        assert RightResult(hooks, forceClone, source, h, orig.value, v[orig.value].result, done[orig.value]);
      }
    }
  }

  /** For an untouched node there is nothing to see but its own children. */
  lemma UntouchedIsKept(hooks: Hooks, forward: bool, source: Heap, h: Heap, v: Visited, done: Memo.Finished, n: Id)
    requires Acyclic(source) && Acyclic(h) && source <= h && TableOk(v, h) && n < |source|
    requires ResultsOk(hooks, false, source, h, v, done) && Untouched(hooks, Unfold(source, n))
    ensures hooks.pre(source[n].tag, Memo.SeenKids(source, source[n].kids, n, done, forward)) == KeepPre
  {
    var kids := source[n].kids;
    var trees := UnfoldKids(source, kids, n);
    assert UntouchedKids(hooks, trees);
    forall i | 0 <= i < |kids| ensures Memo.Seen(source, kids[i], done, forward) == trees[i] {
      if kids[i].Some? && kids[i].value in done {
        var k := kids[i].value;
        assert trees[i] == Some(Unfold(source, k)) && Untouched(hooks, trees[i].value);
        assert RightResult(hooks, false, source, h, k, v[k].result, done[k]);
        UnfoldIsStable(source, h, k);
      }
    }
    assert Memo.SeenKids(source, kids, n, done, forward) == trees;
  }

  /** Children whose visits are over unfold to what the traversal on trees made of them. */
  lemma KidsVisited(hooks: Hooks, forceClone: bool, source: Heap, h: Heap, v: Visited, done: Memo.Finished,
                    kids: seq<Option<Id>>, orig: seq<Option<Id>>, bound: Id, trees: seq<Option<Tree>>)
    requires Acyclic(source) && Acyclic(h) && source <= h && TableOk(v, h)
    requires ResultsOk(hooks, forceClone, source, h, v, done)
    requires bound <= |source| && KidsBelow(orig, bound)
    requires AllVisited(v, done, kids, orig, trees)
    ensures KidsBelow(kids, |h|)
    ensures UnfoldKids(h, kids, |h|) == trees
    ensures !forceClone && UntouchedKids(hooks, UnfoldKids(source, orig, bound)) ==>
              kids == orig && trees == UnfoldKids(source, orig, bound)
  {
    forall i | 0 <= i < |kids|
      ensures (kids[i].Some? ==> kids[i].value < |h|) && UnfoldOption(h, kids[i]) == trees[i]
    {
      KidUnfolds(hooks, forceClone, source, h, v, done, kids[i], orig[i], trees[i]);
    }
    if !forceClone && UntouchedKids(hooks, UnfoldKids(source, orig, bound)) {
      KidsUntouched(hooks, source, h, v, done, kids, orig, bound, trees);
    }
  }

  lemma KidsUntouched(hooks: Hooks, source: Heap, h: Heap, v: Visited, done: Memo.Finished,
                      kids: seq<Option<Id>>, orig: seq<Option<Id>>, bound: Id, trees: seq<Option<Tree>>)
    requires Acyclic(source) && Acyclic(h) && source <= h && TableOk(v, h)
    requires ResultsOk(hooks, false, source, h, v, done)
    requires bound <= |source| && KidsBelow(orig, bound)
    requires AllVisited(v, done, kids, orig, trees) && UntouchedKids(hooks, UnfoldKids(source, orig, bound))
    ensures kids == orig && trees == UnfoldKids(source, orig, bound)
  {
    var before := UnfoldKids(source, orig, bound);
    forall i | 0 <= i < |kids| ensures kids[i] == orig[i] && trees[i] == before[i] {
      KidUnfolds(hooks, false, source, h, v, done, kids[i], orig[i], trees[i]);
      assert orig[i].Some? ==> Untouched(hooks, before[i].value);
    }
  }

  lemma KidUnfolds(hooks: Hooks, forceClone: bool, source: Heap, h: Heap, v: Visited, done: Memo.Finished,
                   kid: Option<Id>, orig: Option<Id>, tree: Option<Tree>)
    requires Acyclic(source) && Acyclic(h) && source <= h && TableOk(v, h)
    requires ResultsOk(hooks, forceClone, source, h, v, done)
    requires (orig.Some? ==> orig.value < |source|) && KidVisited(v, done, kid, orig, tree)
    ensures kid.Some? ==> kid.value < |h|
    ensures UnfoldOption(h, kid) == tree
    ensures !forceClone && (orig.Some? ==> Untouched(hooks, Unfold(source, orig.value))) ==>
              kid == orig && tree == UnfoldOption(source, orig)
  {
    if orig.Some? {
      assert RightResult(hooks, forceClone, source, h, orig.value, kid, tree);
      UnfoldIsStable(source, h, orig.value);
    }
  }

  /** The visit of the child `orig` is over; it has become `kid`, which unfolds to `tree`. */
  ghost predicate KidVisited(v: Visited, done: Memo.Finished, kid: Option<Id>, orig: Option<Id>, tree: Option<Tree>) {
    if orig.None? then kid.None? && tree.None?
    else
      && IsDone(v, orig.value) && v[orig.value].result == kid
      && orig.value in done && done[orig.value] == tree
  }

  ghost predicate AllVisited(v: Visited, done: Memo.Finished, kids: seq<Option<Id>>, orig: seq<Option<Id>>, trees: seq<Option<Tree>>) {
    |kids| == |orig| == |trees| && forall i | 0 <= i < |kids| :: KidVisited(v, done, kids[i], orig[i], trees[i])
  }

  lemma OneMoreVisited(v: Visited, v2: Visited, done: Memo.Finished, done2: Memo.Finished,
                       kids: seq<Option<Id>>, orig: seq<Option<Id>>, trees: seq<Option<Tree>>,
                       kid: Option<Id>, next: Option<Id>, tree: Option<Tree>)
    requires AllVisited(v, done, kids, orig, trees) && Adds(v, v2, None, done, done2)
    requires KidVisited(v2, done2, kid, next, tree)
    ensures AllVisited(v2, done2, kids + [kid], orig + [next], trees + [tree])
  {
    forall i | 0 <= i < |kids| ensures KidVisited(v2, done2, kids[i], orig[i], trees[i]) {
      assert KidVisited(v, done, kids[i], orig[i], trees[i]);
    }
  }

  lemma VisitedAreSettled(v: Visited, h: Heap, done: Memo.Finished, kids: seq<Option<Id>>, orig: seq<Option<Id>>, trees: seq<Option<Tree>>)
    requires TableOk(v, h) && AllVisited(v, done, kids, orig, trees)
    ensures AllSettled(v, kids)
  {
    forall i | 0 <= i < |kids| && kids[i].Some? ensures IsSettled(v, kids[i].value) {
      assert KidVisited(v, done, kids[i], orig[i], trees[i]);
    }
  }

  /** Starting a node that is not in the table: an original that goes on the stack, or a new node. */
  lemma StartIsSound(hooks: Hooks, forceClone: bool, source: Heap, h: Heap, v: Visited, ctxt: seq<Id>,
                     preorders: seq<Id>, n: Id, done: Memo.Finished)
    requires Acyclic(source) && Acyclic(h) && source <= h && TableOk(v, h)
    requires ResultsOk(hooks, forceClone, source, h, v, done) && ContextOk(source, v, ctxt) && OnceOk(source, v, preorders)
    requires n < |h| && n !in v
    requires n < |source| ==> forall i | 0 <= i < |ctxt| :: n < ctxt[i]
    ensures var v2 := v[n := VisitInfo(true, true, Some(n))];
            && TableOk(v2, h)
            && ResultsOk(hooks, forceClone, source, h, v2, done)
            && ContextOk(source, v2, if n < |source| then ctxt + [n] else ctxt)
            && OnceOk(source, v2, if n < |source| then preorders + [n] else preorders)
  {
    var v2 := v[n := VisitInfo(true, true, Some(n))];
    forall m | m in v2 && !v2[m].inProgress && v2[m].result.Some? ensures IsSettled(v2, v2[m].result.value) {
      assert v2[m] == v[m] && IsSettled(v, v[m].result.value);
    }
    if n < |source| {
      var inner := ctxt + [n];
      forall m: Id | m < |source| ensures (m in v2 && v2[m].inProgress) <==> m in inner {
        assert m in inner <==> m in ctxt || m == n;
      }
      var order := preorders + [n];
      forall m ensures m in order <==> m in v2 && m < |source| {
        assert m in order <==> m in preorders || m == n;
      }
    }
  }

  lemma NextOf<T>(r: seq<T>, kids: seq<T>, i: nat)
    requires i < |r| == |kids| && r[i..] == kids[i..]
    ensures r[i] == kids[i] && r[i + 1..] == kids[i + 1..]
  {
    assert r[i] == r[i..][0] && kids[i] == kids[i..][0];
    assert r[i + 1..] == r[i..][1..] && kids[i + 1..] == kids[i..][1..];
  }

  lemma Placed<T>(kids: seq<T>, i: nat, kid: T)
    requires i < |kids|
    ensures kids[i := kid][..i + 1] == kids[..i] + [kid] && kids[i := kid][i + 1..] == kids[i + 1..]
    ensures kids[i := kids[i]] == kids
  {
  }

  lemma Whole<T>(s: seq<T>, n: nat)
    requires |s| == n
    ensures s[..n] == s
  {
  }

  class Transform {
    const hooks: Hooks
    const forceClone: bool
    const forwardChildren: bool
    /** The IR the visitor was applied to. */
    const source: Heap
    var heap: Heap
    var visited: Visited
    /** The originals on the context stack, outermost first. */
    var ctxt: seq<Id>
    ghost var preorders: seq<Id>
    /** The finished originals and the trees they have become. */
    ghost var done: Memo.Finished

    constructor (hooks: Hooks, forceClone: bool, forwardChildren: bool, source: Heap)
      requires Acyclic(source)
      ensures this.hooks == hooks && this.forceClone == forceClone
      ensures this.forwardChildren == forwardChildren && this.source == source
      ensures Valid() && visited == map[] && ctxt == [] && heap == source
    {
      this.hooks := hooks;
      this.forceClone := forceClone;
      this.forwardChildren := forwardChildren;
      this.source := source;
      heap := source;
      visited := map[];
      ctxt := [];
      preorders := [];
      done := map[];
    }

    ghost predicate Valid()
      reads this
    {
      && Acyclic(source) && Acyclic(heap) && source <= heap
      && TableOk(visited, heap)
      && ResultsOk(hooks, forceClone, source, heap, visited, done)
      && ContextOk(source, visited, ctxt)
      && OnceOk(source, visited, preorders)
    }

    /** `n` may be visited: it is finished, or it is an original below everything in progress. */
    ghost predicate Visitable(n: Id)
      reads this
    {
      n < |heap| && (IsDone(visited, n) || (n < |source| && n !in visited && forall i | 0 <= i < |ctxt| :: n < ctxt[i]))
    }

    /** What a visit may do to the table: add finished entries and leave the others alone. */
    twostate predicate OnlyAdds()
      reads this
    {
      && old(heap) <= heap && ctxt == old(ctxt)
      && Adds(old(visited), visited, None, old(done), done)
    }

    function Cost(n: Option<Id>): nat
      reads this
    {
      if n.None? || IsDone(visited, n.value) then 0 else n.value + 1
    }

    method TryStart(n: Id, defaultVisitOnce: bool) returns (status: VisitStatus)
      modifies this`visited
      ensures n !in old(visited) ==>
                status == New && visited == old(visited)[n := VisitInfo(true, defaultVisitOnce, Some(n))]
      ensures n in old(visited) ==>
                var info := old(visited[n]);
                if info.inProgress then status == Busy && visited == old(visited)
                else if info.visitOnce then status == Done && visited == old(visited)
                else status == Revisit && visited == old(visited)[n := info.(inProgress := true)]
    {
      if n !in visited {
        visited := visited[n := VisitInfo(true, defaultVisitOnce, Some(n))];
        return New;
      }
      if visited[n].inProgress { return Busy; }
      if visited[n].visitOnce { return Done; }
      visited := visited[n := visited[n].(inProgress := true)];
      status := Revisit;
    }

    /** The whole visit of a node; null stays null. The IR-loop report is never reached. */
    method ApplyVisitor(n: Option<Id>) returns (r: Option<Id>)
      requires Valid() && (n.Some? ==> Visitable(n.value))
      modifies this
      ensures Valid() && OnlyAdds()
      ensures n.None? ==> r.None?
      ensures n.Some? ==> IsDone(visited, n.value) && visited[n.value].result == r
      ensures done == if n.Some? && n.value < |source|
                      then Memo.Visit(hooks, forwardChildren, source, n.value, old(done)).1 else old(done)
      decreases Cost(n), 6
    {
      r := n;
      if n.Some? {
        var status := Enter(n.value);
        if status == Done {
          r := visited[n.value].result;
        } else {
          ghost var v1 := visited;
          r := VisitNew(n.value);
          StartsAndFinishes(old(visited), v1, visited, n.value, old(done), done);
          assert ctxt == (ctxt + [n.value])[..|ctxt|];
        }
      }
    }

    /** Starts a visitable node and, when it is new, puts it on the context stack. */
    method Enter(n: Id) returns (status: VisitStatus)
      requires Valid() && Visitable(n)
      modifies this`visited, this`ctxt, this`preorders
      ensures old(IsDone(visited, n)) ==> status == Done && visited == old(visited) && ctxt == old(ctxt) && Valid()
      ensures !old(IsDone(visited, n)) ==>
                && status == New && n < |source| && n !in old(visited) && n !in done && Opened(n)
                && visited == old(visited)[n := VisitInfo(true, true, Some(n))] && ctxt == old(ctxt) + [n]
    {
      if n !in visited {
        StartIsSound(hooks, forceClone, source, heap, visited, ctxt, preorders, n, done);
      }
      status := TryStart(n, true);
      if status == New {
        ctxt := ctxt + [n];
        preorders := preorders + [n];
      }
    }

    /** Puts new nodes into the heap; the clone a hook edits gets its identity here. */
    method Publish(g: Heap)
      requires Valid() && heap <= g && Acyclic(g)
      modifies this`heap
      ensures Valid() && heap == g
    {
      GrowIsSound(hooks, forceClone, source, heap, g, visited, done);
      heap := g;
    }

    /** The postorder hook on a clone of the given content. */
    method PostOrder(copy: NodeData, p: Option<Id>, trees: seq<Option<Tree>>) returns (final: Option<Id>)
      requires Valid() && KidsBelow(copy.kids, |heap|) && (p.Some? ==> p.value < |heap|)
      requires trees == UnfoldKids(heap, copy.kids, |heap|)
      requires AllSettled(visited, copy.kids)
      modifies this`heap
      ensures Valid() && old(heap) <= heap
      ensures final.Some? ==> final.value < |heap| && FinalResult(visited, |source|, p, final.value)
      ensures match hooks.post(copy.tag, trees)
              case KeepPost => final.Some? && heap[final.value] == copy
              case EditPost(tag, shapes) =>
                final.Some? && heap[final.value] == NodeData(tag, MakeAll(old(heap), shapes, copy.kids).1)
              case DropPost => final.None?
              case FreshPost(tag, shapes) =>
                && final.Some? && final.value >= |old(heap)|
                && heap[final.value] == NodeData(tag, MakeAll(old(heap), shapes, copy.kids).1)
              case PromotePost(i) => final == if i < |copy.kids| then copy.kids[i] else None
      ensures UnfoldOption(heap, final) == ApplyPost(hooks, copy.tag, trees)
      ensures p.None? && PostUntouched(hooks, copy.tag, trees) ==>
                final.Some? && final.value !in visited && heap[final.value] == copy
    {
      match hooks.post(copy.tag, trees) {
        case KeepPost => final := Edited(copy, p);
        case EditPost(tag, shapes) =>
          var kids := MakeBelow(shapes, copy.kids);
          final := Edited(NodeData(tag, kids), p);
        case DropPost => final := None;
        case FreshPost(tag, shapes) =>
          var kids := MakeBelow(shapes, copy.kids);
          final := Edited(NodeData(tag, kids), None);
        case PromotePost(i) => final := if i < |copy.kids| then copy.kids[i] else None;
      }
    }

    /** Makes the nodes a hook puts below its result. */
    method MakeBelow(shapes: seq<Shape>, kids: seq<Option<Id>>) returns (made: seq<Option<Id>>)
      requires Valid() && KidsBelow(kids, |heap|)
      modifies this`heap
      ensures Valid() && old(heap) <= heap && KidsBelow(made, |heap|)
      ensures made == MakeAll(old(heap), shapes, kids).1
      ensures UnfoldKids(heap, made, |heap|) == PlantAll(shapes, UnfoldKids(old(heap), kids, old(|heap|)))
      ensures IsIdentity(shapes, |kids|) ==> heap == old(heap) && made == kids
    {
      MakeAllPlants(heap, shapes, kids);
      if IsIdentity(shapes, |kids|) {
        MakeAllIdentity(heap, shapes, kids, 0);
        assert kids[0..] == kids;
      }
      var (g, ids) := MakeAll(heap, shapes, kids);
      Publish(g);
      made := ids;
    }

    /** The clone after editing; dropped in favour of the preorder result if it is equal to that. */
    method Edited(data: NodeData, p: Option<Id>) returns (final: Option<Id>)
      requires Valid() && KidsBelow(data.kids, |heap|) && (p.Some? ==> p.value < |heap|)
      modifies this`heap
      ensures Valid() && old(heap) <= heap && final.Some? && final.value < |heap| && heap[final.value] == data
      ensures Unfold(heap, final.value) == Node(data.tag, UnfoldKids(old(heap), data.kids, old(|heap|)))
      ensures final == p || final == Some(old(|heap|))
      ensures p.None? ==> final == Some(old(|heap|))
    {
      if p.Some? && heap[p.value] == data {
        UnfoldKidsAlike(heap, data.kids, p.value, |heap|);
        return p;
      }
      final := Some(|heap|);
      var g := heap + [data];
      UnfoldKidsStable(heap, g, data.kids, |heap|, |heap|);
      Publish(g);
    }

    /** Finishes `n` on account of the final result; `v` and `d` are from before its children were visited. */
    method Conclude(n: Id, p: Option<Id>, final: Option<Id>, ghost v: Visited, ghost d: Memo.Finished) returns (r: Option<Id>)
      requires Valid() && ctxt != [] && ctxt[|ctxt| - 1] == n
      requires n < |source| && n in visited && visited[n] == VisitInfo(true, true, Some(n))
      requires p.Some? ==> |source| <= p.value < |heap| && p.value in visited &&
                           visited[p.value] == VisitInfo(true, true, p)
      requires final.Some? ==> final.value < |heap| && FinalResult(visited, |source|, p, final.value)
      requires !forceClone && Untouched(hooks, Unfold(source, n)) ==>
                 p.None? && final.Some? && final.value !in visited && heap[final.value] == heap[n]
      requires n in v && n !in done && Adds(v, visited, p, d, done) && (p.Some? ==> p.value !in v)
      modifies this`visited, this`ctxt, this`done
      ensures Valid() && ctxt == old(ctxt)[..|old(ctxt)| - 1]
      ensures done == old(done)[n := UnfoldOption(heap, final)]
      ensures AddsBut(v, visited, n, None, d, done)
      ensures IsDone(visited, n) && visited[n].result == r
    {
      ghost var v1, c1, d1 := visited, ctxt, done;
      r := FinishNode(n, p, final);
      done := d1[n := UnfoldOption(heap, final)];
      assert Valid() by {
        ConcludeIsSound(hooks, forceClone, source, heap, v1, c1, preorders, n, p, final, visited, d1);
      }
      assert AddsBut(v, visited, n, None, d, done) by {
        ConcludeAdds(v, v1, visited, heap, |source|, n, p, final, d, d1, done);
      }
    }

    /** Calls `finish` for the node and for its replacement. */
    method FinishNode(n: Id, p: Option<Id>, final: Option<Id>) returns (r: Option<Id>)
      requires n in visited && n < |heap| && visited[n] == VisitInfo(true, true, Some(n)) && ctxt != []
      requires p.Some? ==> p != Some(n) && p.value in visited && p.value < |heap| && visited[p.value] == VisitInfo(true, true, p)
      requires final.Some? ==> final.value < |heap| && FinalResult(visited, |source|, p, final.value)
      modifies this`visited, this`ctxt
      ensures Settles(old(visited), visited, heap, |source|, n, p, final) && visited[n].result == r
      ensures !forceClone && p.None? && final.Some? && final.value !in old(visited) && heap[final.value] == heap[n] ==>
                r == Some(n)
      ensures ctxt == old(ctxt)[..|old(ctxt)| - 1]
    {
      FinishSettles(visited, heap, forceClone, |source|, n, p, final);
      var (v, changed) := Finish(visited, heap, forceClone, n, final);
      visited := if p.Some? then Finish(v, heap, forceClone, p.value, final).0 else v;
      r := if changed then final else Some(n);
      ctxt := ctxt[..|ctxt| - 1];
    }

    /** `n` has just been started. */
    ghost predicate Opened(n: Id)
      reads this
    {
      && Valid() && ctxt != [] && ctxt[|ctxt| - 1] == n
      && n < |source| && n in visited && visited[n] == VisitInfo(true, true, Some(n))
    }

    /** `n` is the innermost node in progress. */
    ghost predicate UnderWay(n: Id)
      reads this
    {
      ctxt != [] && ctxt[|ctxt| - 1] == n && n < |source|
    }

    /** The children of `n`, forwarded or not. */
    ghost predicate Prepared(n: Id, kids: seq<Option<Id>>)
      reads this
    {
      n < |source| && KidsBelow(kids, |heap|) && AllForwarded(visited, kids, source[n].kids)
    }

    /** The visit of `n` is over, and changed no other entry of the table. */
    twostate predicate Closed(n: Id)
      reads this
    {
      && old(heap) <= heap && ctxt + [n] == old(ctxt)
      && AddsBut(old(visited), visited, n, None, old(done), done)
      && IsDone(visited, n)
    }

    method VisitNew(n: Id) returns (r: Option<Id>)
      requires Opened(n) && n !in done
      modifies this
      ensures Valid() && Closed(n) && visited[n].result == r
      ensures done == Memo.Visit(hooks, forwardChildren, source, n, old(done)).1
      decreases n + 1, 5
    {
      var kids, answer := PreOrder(n);
      if answer == DropPre {
        r := Conclude(n, None, None, visited, done);
      } else {
        r := VisitAnswered(n, kids, answer);
      }
    }

    /** The preorder hook has not returned null. */
    method VisitAnswered(n: Id, kids: seq<Option<Id>>, answer: Pre) returns (r: Option<Id>)
      requires Opened(n) && Prepared(n, kids) && n !in done && !answer.DropPre?
      requires answer == KeepPre || forceClone || !Untouched(hooks, Unfold(source, n))
      modifies this
      ensures Valid() && Closed(n) && visited[n].result == r
      ensures var (tag, below) := Answered(answer, source[n].tag, source[n].kids);
              done == Memo.VisitBelow(hooks, forwardChildren, source, tag, below, n, old(done)).1
      decreases n + 1, 4
    {
      match answer {
        case KeepPre => r := VisitKept(n, kids);
        case EditPre(tag, select) => r := VisitEdited(n, kids, tag, select);
        case FreshPre(tag, select) => r := VisitReplaced(n, kids, tag, select);
      }
    }

    /** Forwards the children if that is wanted, and calls the preorder hook. */
    method PreOrder(n: Id) returns (kids: seq<Option<Id>>, answer: Pre)
      requires Opened(n)
      ensures Prepared(n, kids)
      ensures answer == hooks.pre(source[n].tag, Memo.SeenKids(source, source[n].kids, n, done, forwardChildren))
      ensures !forceClone && Untouched(hooks, Unfold(source, n)) ==> answer == KeepPre
    {
      kids := heap[n].kids;
      if forwardChildren {
        kids := ForwardChildren(kids);
      }
      SeesForwarded(hooks, forceClone, forwardChildren, source, heap, visited, done, kids, source[n].kids, n);
      if !forceClone && Untouched(hooks, Unfold(source, n)) {
        UntouchedIsKept(hooks, forwardChildren, source, heap, visited, done, n);
      }
      answer := hooks.pre(heap[n].tag, UnfoldKids(heap, kids, |heap|));
    }

    /** The preorder hook has returned its argument. */
    method VisitKept(n: Id, forwarded: seq<Option<Id>>) returns (r: Option<Id>)
      requires Opened(n) && Prepared(n, forwarded) && n !in done
      modifies this
      ensures Valid() && Closed(n) && visited[n].result == r
      ensures done == Memo.VisitBelow(hooks, forwardChildren, source, source[n].tag, source[n].kids, n, old(done)).1
      decreases n + 1, 3
    {
      ghost var v, d := visited, done;
      var final, trees := VisitBelow(source[n].tag, forwarded, source[n].kids, n, None);
      assert n in visited && visited[n] == VisitInfo(true, true, Some(n)) && heap[n] == source[n] && n !in done;
      assert !forceClone && Untouched(hooks, Unfold(source, n)) ==>
          final.Some? && final.value !in visited && heap[final.value] == heap[n];
      r := Conclude(n, None, final, v, d);
    }

    /** The preorder hook has edited its argument in place. */
    method VisitEdited(n: Id, forwarded: seq<Option<Id>>, tag: string, select: seq<nat>) returns (r: Option<Id>)
      requires Opened(n) && Prepared(n, forwarded) && n !in done
      requires forceClone || !Untouched(hooks, Unfold(source, n))
      modifies this
      ensures Valid() && Closed(n) && visited[n].result == r
      ensures done == Memo.VisitBelow(hooks, forwardChildren, source, tag, Select(source[n].kids, select), n, old(done)).1
      decreases n + 1, 3
    {
      ghost var v, d := visited, done;
      SelectForwarded(visited, forwarded, source[n].kids, select);
      var final, trees := VisitBelow(tag, Select(forwarded, select), Select(source[n].kids, select), n, None);
      assert n in visited && visited[n] == VisitInfo(true, true, Some(n)) && n !in done;
      r := Conclude(n, None, final, v, d);
    }

    /** The preorder hook has returned a fresh node. */
    method VisitReplaced(n: Id, forwarded: seq<Option<Id>>, tag: string, select: seq<nat>) returns (r: Option<Id>)
      requires Opened(n) && Prepared(n, forwarded) && n !in done
      requires forceClone || !Untouched(hooks, Unfold(source, n))
      modifies this
      ensures Valid() && Closed(n) && visited[n].result == r
      ensures done == Memo.VisitBelow(hooks, forwardChildren, source, tag, Select(source[n].kids, select), n, old(done)).1
      decreases n + 1, 3
    {
      ghost var v, d := visited, done;
      var p, final, trees := VisitReplacement(n, forwarded, tag, select);
      r := Conclude(n, Some(p), final, v, d);
    }

    method VisitReplacement(n: Id, forwarded: seq<Option<Id>>, tag: string, select: seq<nat>)
      returns (p: Id, final: Option<Id>, ghost trees: seq<Option<Tree>>)
      requires Opened(n) && Prepared(n, forwarded)
      modifies this
      ensures Valid() && old(heap) <= heap && ctxt == old(ctxt)
      ensures |source| <= p < |heap| && p !in old(visited)
      ensures p in visited && visited[p] == VisitInfo(true, true, Some(p))
      ensures Adds(old(visited), visited, Some(p), old(done), done)
      ensures final.Some? ==> final.value < |heap| && FinalResult(visited, |source|, Some(p), final.value)
      ensures (trees, done) ==
              Memo.VisitKids(hooks, forwardChildren, source, Select(source[n].kids, select), n, old(done))
      ensures UnfoldOption(heap, final) == ApplyPost(hooks, tag, trees)
      decreases n + 1, 2
    {
      p := Replace(n, forwarded, tag, select);
      final, trees := VisitBelow(tag, Select(forwarded, select), Select(source[n].kids, select), n, Some(p));
    }

    /** Visits the children of the clone and gives it to the postorder hook. */
    method VisitBelow(tag: string, forwarded: seq<Option<Id>>, ghost orig: seq<Option<Id>>, ghost bound: Id, p: Option<Id>)
      returns (final: Option<Id>, ghost trees: seq<Option<Tree>>)
      requires Valid() && UnderWay(bound) && KidsBelow(orig, bound)
      requires AllForwarded(visited, forwarded, orig) && (p.Some? ==> p.value < |heap|)
      modifies this
      ensures Valid() && OnlyAdds()
      ensures final.Some? ==> final.value < |heap| && FinalResult(visited, |source|, p, final.value)
      ensures (trees, done) == Memo.VisitKids(hooks, forwardChildren, source, orig, bound, old(done))
      ensures UnfoldOption(heap, final) == ApplyPost(hooks, tag, trees)
      ensures var before := UnfoldKids(source, orig, bound);
              !forceClone && p.None? && PostUntouched(hooks, tag, before) && UntouchedKids(hooks, before)
              ==> final.Some? && final.value !in visited && heap[final.value] == NodeData(tag, orig)
      decreases bound + 1, 1
    {
      var kids;
      kids, trees := VisitChildren(forwarded, orig, bound);
      VisitedAreSettled(visited, heap, done, kids, orig, trees);
      KidsVisited(hooks, forceClone, source, heap, visited, done, kids, orig, bound, trees);
      final := FinishBelow(tag, kids, orig, p, UnfoldKids(source, orig, bound));
    }

    /** The children have become `kids`; before, they were `orig`, which unfolded to `before`. */
    method FinishBelow(tag: string, kids: seq<Option<Id>>, ghost orig: seq<Option<Id>>, p: Option<Id>, ghost before: seq<Option<Tree>>)
      returns (final: Option<Id>)
      requires Valid() && KidsBelow(kids, |heap|) && (p.Some? ==> p.value < |heap|)
      requires AllSettled(visited, kids)
      requires !forceClone && UntouchedKids(hooks, before) ==> kids == orig && UnfoldKids(heap, kids, |heap|) == before
      modifies this`heap
      ensures Valid() && old(heap) <= heap
      ensures final.Some? ==> final.value < |heap| && FinalResult(visited, |source|, p, final.value)
      ensures UnfoldOption(heap, final) == ApplyPost(hooks, tag, old(UnfoldKids(heap, kids, |heap|)))
      ensures !forceClone && p.None? && PostUntouched(hooks, tag, before) && UntouchedKids(hooks, before)
              ==> final.Some? && final.value !in visited && heap[final.value] == NodeData(tag, orig)
    {
      final := PostOrder(NodeData(tag, kids), p, UnfoldKids(heap, kids, |heap|));
    }

    /** Publishes the node a preorder hook returned instead of `n`, and starts visiting it. */
    method Replace(n: Id, forwarded: seq<Option<Id>>, tag: string, select: seq<nat>) returns (p: Id)
      requires Opened(n) && Prepared(n, forwarded)
      modifies this`heap, this`visited
      ensures Valid() && p == old(|heap|) && heap == old(heap) + [NodeData(tag, Select(forwarded, select))]
      ensures visited == old(visited)[p := VisitInfo(true, true, Some(p))] && p !in old(visited)
      ensures AllForwarded(visited, Select(forwarded, select), Select(source[n].kids, select))
    {
      SelectForwarded(visited, forwarded, source[n].kids, select);
      p := |heap|;
      Publish(heap + [NodeData(tag, Select(forwarded, select))]);
      StartIsSound(hooks, forceClone, source, heap, visited, ctxt, preorders, p, done);
      var status := TryStart(p, visited[n].visitOnce);
      assert status == New;
    }

    method ForwardChildren(kids: seq<Option<Id>>) returns (r: seq<Option<Id>>)
      requires Valid() && KidsBelow(kids, |heap|)
      ensures |r| == |kids| && KidsBelow(r, |heap|)
      ensures forall i | 0 <= i < |kids| :: r[i] == Forward(visited, kids[i])
    {
      r := kids;
      for i := 0 to |kids|
        invariant |r| == |kids| && r[i..] == kids[i..] && KidsBelow(r, |heap|)
        invariant forall j | 0 <= j < i :: r[j] == Forward(visited, kids[j])
      {
        if r[i].Some? && IsDone(visited, r[i].value) && visited[r[i].value].result.Some? {
          r := r[i := visited[r[i].value].result];
        }
      }
    }

    method VisitChildren(kids: seq<Option<Id>>, ghost orig: seq<Option<Id>>, ghost bound: Id)
      returns (r: seq<Option<Id>>, ghost trees: seq<Option<Tree>>)
      requires Valid() && UnderWay(bound) && KidsBelow(orig, bound) && AllForwarded(visited, kids, orig)
      modifies this
      ensures Valid() && OnlyAdds()
      ensures (trees, done) == Memo.VisitKids(hooks, forwardChildren, source, orig, bound, old(done))
      ensures AllVisited(visited, done, r, orig, trees)
      decreases bound + 1, 0
    {
      r, trees := kids, [];
      Memo.OnwardsFrom(hooks, forwardChildren, source, orig, bound, trees, done);
      for i := 0 to |kids|
        invariant Valid() && OnlyAdds()
        invariant |r| == |kids| && r[i..] == kids[i..]
        invariant AllVisited(visited, done, r[..i], orig[..i], trees)
        invariant Memo.VisitKids(hooks, forwardChildren, source, orig, bound, old(done)) ==
                  Memo.Onwards(hooks, forwardChildren, source, orig[i..], bound, trees, done)
      {
        NextOf(r, kids, i);
        ghost var v, d := visited, done;
        r, trees := VisitNext(r, i, orig, bound, trees);
        AddsTwice(old(visited), v, visited, old(done), d, done);
      }
      Whole(r, |kids|);
      Whole(orig, |kids|);
      Memo.OnwardsFrom(hooks, forwardChildren, source, orig, bound, trees, done);
    }

    /** Visits one more child. */
    method VisitNext(kids: seq<Option<Id>>, i: nat, ghost orig: seq<Option<Id>>, ghost bound: Id, ghost trees: seq<Option<Tree>>)
      returns (r: seq<Option<Id>>, ghost more: seq<Option<Tree>>)
      requires Valid() && UnderWay(bound) && KidsBelow(orig, bound)
      requires i < |kids| == |orig| && Forwarded(visited, kids[i], orig[i])
      requires AllVisited(visited, done, kids[..i], orig[..i], trees)
      modifies this
      ensures Valid() && OnlyAdds()
      ensures |r| == |kids| && r[i + 1..] == kids[i + 1..]
      ensures AllVisited(visited, done, r[..i + 1], orig[..i + 1], more)
      ensures Memo.Onwards(hooks, forwardChildren, source, orig[i..], bound, trees, old(done)) ==
              Memo.Onwards(hooks, forwardChildren, source, orig[i + 1..], bound, more, done)
      decreases bound, 8
    {
      Memo.OneMore(hooks, forwardChildren, source, orig, i, bound, trees, done);
      var kid;
      ghost var tree;
      kid, tree := VisitKid(kids[i], orig[i], bound);
      OneMoreVisited(old(visited), visited, old(done), done, kids[..i], orig[..i], trees, kid, orig[i], tree);
      Placed(kids, i, kid);
      Placed(orig, i, orig[i]);
      r := kids[i := kid];
      more := trees + [tree];
    }

    /** Visits a child that may have been forwarded. */
    method VisitKid(kid: Option<Id>, ghost orig: Option<Id>, ghost bound: Id)
      returns (r: Option<Id>, ghost tree: Option<Tree>)
      requires Valid() && UnderWay(bound) && (orig.Some? ==> orig.value < bound)
      requires Forwarded(visited, kid, orig)
      modifies this
      ensures Valid() && OnlyAdds()
      ensures (tree, done) == Memo.VisitKid(hooks, forwardChildren, source, orig, bound, old(done))
      ensures KidVisited(visited, done, r, orig, tree)
      decreases bound, 7
    {
      tree := Memo.VisitKid(hooks, forwardChildren, source, orig, bound, done).0;
      if orig.Some? {
        Memo.VisitRecords(hooks, forwardChildren, source, orig.value, done);
      }
      r := ApplyVisitor(kid);
    }

    /** Applying the transform to a root: the IR it was given is not changed, the result unfolds to what
        the traversal on trees makes of the root, and an untouched root is returned itself. Everything
        visited is rewritten plainly if and only if at each node it makes no difference that the
        preorder hook may be shown forwarded children. */
    method Apply(root: Id) returns (r: Option<Id>)
      requires Valid() && visited == map[] && ctxt == [] && root < |source|
      modifies this
      ensures source <= heap && Acyclic(heap) && (r.Some? ==> r.value < |heap|)
      ensures (UnfoldOption(heap, r), done) == Memo.Visit(hooks, forwardChildren, source, root, map[])
      ensures Memo.SteadyVisit(hooks, forwardChildren, source, root, map[]) <==> Memo.PlainOk(hooks, source, done)
      ensures Memo.PlainOk(hooks, source, done) ==> UnfoldOption(heap, r) == Rewrite(hooks, Unfold(source, root))
      ensures !forwardChildren || Memo.Steady(hooks) ==> Memo.PlainOk(hooks, source, done)
      ensures !forceClone && Untouched(hooks, Unfold(source, root)) ==> r == Some(root)
      ensures forall i, j | 0 <= i < j < |preorders| :: preorders[i] != preorders[j]
      ensures forall n: Id :: n in preorders <==> n in done
      ensures Memo.KeepsAll(hooks) ==> forall n: Id :: n in preorders <==> n in Inspection.Reached(source, Memo.Everywhere, root)
    {
      assert done == map[];
      r := ApplyVisitor(Some(root));
      Memo.VisitFromScratch(hooks, forwardChildren, source, root);
      assert RightResult(hooks, forceClone, source, heap, root, r, done[root]);
      visited := map[];
    }
  }
}
