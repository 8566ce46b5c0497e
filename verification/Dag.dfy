/** IR nodes as a DAG, its unfolding into trees, and plain recursive rewriting of trees. */
module Dag {
  import opened Wrappers

  type Id = nat

  /** What `try_start` says of a node. */
  datatype VisitStatus = New | Revisit | Busy | Done

  datatype NodeData = NodeData(tag: string, kids: seq<Option<Id>>)

  /** All nodes ever made, children before parents; a node never changes once it is in the heap. */
  type Heap = seq<NodeData>

  predicate KidsBelow(kids: seq<Option<Id>>, bound: Id) {
    forall i | 0 <= i < |kids| && kids[i].Some? :: kids[i].value < bound
  }

  predicate Acyclic(h: Heap) {
    forall n | 0 <= n < |h| :: KidsBelow(h[n].kids, n)
  }

  datatype Tree = Node(tag: string, kids: seq<Option<Tree>>)

  function Unfold(h: Heap, n: Id): Tree
    requires Acyclic(h) && n < |h|
    decreases n, 1
  {
    Node(h[n].tag, UnfoldKids(h, h[n].kids, n))
  }

  function UnfoldKids(h: Heap, kids: seq<Option<Id>>, bound: Id): (r: seq<Option<Tree>>)
    requires Acyclic(h) && bound <= |h| && KidsBelow(kids, bound)
    ensures |r| == |kids|
    ensures forall i | 0 <= i < |kids| ::
        r[i] == if kids[i].Some? then Some(Unfold(h, kids[i].value)) else None
    decreases bound, 0, |kids|
  {
    if kids == [] then []
    else
      [if kids[0].Some? then Some(Unfold(h, kids[0].value)) else None] + UnfoldKids(h, kids[1..], bound)
  }

  function UnfoldOption(h: Heap, n: Option<Id>): Option<Tree>
    requires Acyclic(h) && (n.Some? ==> n.value < |h|)
  {
    if n.Some? then Some(Unfold(h, n.value)) else None
  }

  /** Making new nodes does not change what the old ones unfold to. */
  lemma {:induction false} UnfoldIsStable(h: Heap, g: Heap, n: Id)
    requires Acyclic(h) && Acyclic(g) && h <= g && n < |h|
    ensures Unfold(g, n) == Unfold(h, n)
    decreases n
  {
    forall i | 0 <= i < |h[n].kids| && h[n].kids[i].Some?
      ensures Unfold(g, h[n].kids[i].value) == Unfold(h, h[n].kids[i].value)
    {
      UnfoldIsStable(h, g, h[n].kids[i].value);
    }
    assert UnfoldKids(g, h[n].kids, n) == UnfoldKids(h, h[n].kids, n);
  }

  lemma UnfoldKidsStable(h: Heap, g: Heap, kids: seq<Option<Id>>, bound: Id, higher: Id)
    requires Acyclic(h) && Acyclic(g) && h <= g && bound <= |h| && bound <= higher <= |g| && KidsBelow(kids, bound)
    ensures UnfoldKids(g, kids, higher) == UnfoldKids(h, kids, bound)
  {
    forall i | 0 <= i < |kids| && kids[i].Some? ensures Unfold(g, kids[i].value) == Unfold(h, kids[i].value) {
      UnfoldIsStable(h, g, kids[i].value);
    }
  }

  lemma UnfoldKidsAlike(h: Heap, kids: seq<Option<Id>>, bound: Id, higher: Id)
    requires Acyclic(h) && bound <= higher <= |h| && KidsBelow(kids, bound)
    ensures UnfoldKids(h, kids, higher) == UnfoldKids(h, kids, bound)
  {
  }

  // ---------------------------------------------------------------- what hooks make

  function Select<T>(kids: seq<Option<T>>, select: seq<nat>): (r: seq<Option<T>>)
    ensures |r| == |select|
    ensures forall i | 0 <= i < |select| :: r[i] == if select[i] < |kids| then kids[select[i]] else None
  {
    seq(|select|, i requires 0 <= i < |select| => if select[i] < |kids| then kids[select[i]] else None)
  }

  /** Fresh nodes over the children of a node, as deep as you like. */
  datatype Shape = Child(index: nat) | Build(tag: string, kids: seq<Shape>)

  /** On trees. */
  function Plant(s: Shape, kids: seq<Option<Tree>>): Option<Tree>
    decreases s, 1
  {
    match s
    case Child(i) => if i < |kids| then kids[i] else None
    case Build(tag, ss) => Some(Node(tag, PlantAll(ss, kids)))
  }

  function PlantAll(ss: seq<Shape>, kids: seq<Option<Tree>>): (r: seq<Option<Tree>>)
    ensures |r| == |ss|
    decreases ss, 0
  {
    if ss == [] then [] else [Plant(ss[0], kids)] + PlantAll(ss[1..], kids)
  }

  /** In the heap, where each fresh node gets an identity. */
  function Make(h: Heap, s: Shape, kids: seq<Option<Id>>): (r: (Heap, Option<Id>))
    decreases s, 1
  {
    match s
    case Child(i) => (h, if i < |kids| then kids[i] else None)
    case Build(tag, ss) =>
      var (g, made) := MakeAll(h, ss, kids);
      (g + [NodeData(tag, made)], Some(|g|))
  }

  function MakeAll(h: Heap, ss: seq<Shape>, kids: seq<Option<Id>>): (r: (Heap, seq<Option<Id>>))
    ensures |r.1| == |ss|
    decreases ss, 0
  {
    if ss == [] then (h, [])
    else
      var (g, first) := Make(h, ss[0], kids);
      var (f, rest) := MakeAll(g, ss[1..], kids);
      (f, [first] + rest)
  }

  /** Nodes made in the heap unfold to the trees planted over what the children unfold to. */
  lemma {:induction false} MakePlants(h: Heap, s: Shape, kids: seq<Option<Id>>)
    requires Acyclic(h) && KidsBelow(kids, |h|)
    ensures var (g, n) := Make(h, s, kids);
            && h <= g && Acyclic(g) && (n.Some? ==> n.value < |g|)
            && UnfoldOption(g, n) == Plant(s, UnfoldKids(h, kids, |h|))
    decreases s, 1
  {
    match s
    case Child(_) =>
    case Build(tag, ss) =>
      MakeAllPlants(h, ss, kids);
      var (g, made) := MakeAll(h, ss, kids);
      var f := g + [NodeData(tag, made)];
      UnfoldKidsStable(g, f, made, |g|, |g|);
  }

  lemma {:induction false} MakeAllPlants(h: Heap, ss: seq<Shape>, kids: seq<Option<Id>>)
    requires Acyclic(h) && KidsBelow(kids, |h|)
    ensures var (g, made) := MakeAll(h, ss, kids);
            && h <= g && Acyclic(g) && KidsBelow(made, |g|)
            && UnfoldKids(g, made, |g|) == PlantAll(ss, UnfoldKids(h, kids, |h|))
    decreases ss, 0
  {
    if ss != [] {
      MakePlants(h, ss[0], kids);
      var (g, first) := Make(h, ss[0], kids);
      UnfoldKidsStable(h, g, kids, |h|, |g|);
      MakeAllPlants(g, ss[1..], kids);
      var (f, rest) := MakeAll(g, ss[1..], kids);
      if first.Some? { UnfoldIsStable(g, f, first.value); }
    }
  }

  predicate IsIdentity(ss: seq<Shape>, n: nat) {
    |ss| == n && forall i | 0 <= i < n :: ss[i] == Child(i)
  }

  lemma {:induction false} MakeAllIdentity(h: Heap, ss: seq<Shape>, kids: seq<Option<Id>>, from: nat)
    requires from + |ss| == |kids| && forall i | 0 <= i < |ss| :: ss[i] == Child(from + i)
    ensures MakeAll(h, ss, kids) == (h, kids[from..])
    decreases |ss|
  {
    if ss != [] {
      MakeAllIdentity(h, ss[1..], kids, from + 1);
      assert [kids[from]] + kids[from + 1..] == kids[from..];
    }
  }

  lemma {:induction false} PlantAllIdentity(ss: seq<Shape>, kids: seq<Option<Tree>>, from: nat)
    requires from + |ss| == |kids| && forall i | 0 <= i < |ss| :: ss[i] == Child(from + i)
    ensures PlantAll(ss, kids) == kids[from..]
    decreases |ss|
  {
    if ss != [] {
      PlantAllIdentity(ss[1..], kids, from + 1);
      assert [kids[from]] + kids[from + 1..] == kids[from..];
    }
  }

  // ---------------------------------------------------------------- hooks and plain rewriting

  /** What a preorder hook returns: its argument as it is or edited in place, null, or a fresh node;
      what it edits or makes has some of the children below it. */
  datatype Pre =
    | KeepPre
    | EditPre(tag: string, select: seq<nat>)
    | DropPre
    | FreshPre(tag: string, select: seq<nat>)

  /** What is visited and given to the postorder hook after that answer. */
  function Answered<T>(answer: Pre, tag: string, kids: seq<Option<T>>): (string, seq<Option<T>>)
    requires !answer.DropPre?
  {
    match answer
    case KeepPre => (tag, kids)
    case EditPre(t, select) => (t, Select(kids, select))
    case FreshPre(t, select) => (t, Select(kids, select))
  }

  /** What a postorder hook returns: its argument as it is or edited in place, null, a fresh node, or
      one of the children. What it puts below the node may be any fresh tree over the children. */
  datatype Post =
    | KeepPost
    | EditPost(tag: string, kids: seq<Shape>)
    | DropPost
    | FreshPost(tag: string, kids: seq<Shape>)
    | PromotePost(child: nat)

  /** Pure, context-free hooks, which may inspect everything below their argument. */
  datatype Hooks = Hooks(pre: (string, seq<Option<Tree>>) -> Pre, post: (string, seq<Option<Tree>>) -> Post)

  function ApplyPost(hooks: Hooks, tag: string, kids: seq<Option<Tree>>): Option<Tree> {
    match hooks.post(tag, kids)
    case KeepPost => Some(Node(tag, kids))
    case EditPost(t, ss) => Some(Node(t, PlantAll(ss, kids)))
    case DropPost => None
    case FreshPost(t, ss) => Some(Node(t, PlantAll(ss, kids)))
    case PromotePost(i) => if i < |kids| then kids[i] else None
  }

  /** The rewriting a transform stands for: on trees, without any memory of earlier visits. */
  function Rewrite(hooks: Hooks, t: Tree): Option<Tree>
    decreases t, 1
  {
    var answer := hooks.pre(t.tag, t.kids);
    if answer.DropPre? then None
    else
      var (tag, kids) := Answered(answer, t.tag, RewriteKids(hooks, t.kids));
      ApplyPost(hooks, tag, kids)
  }

  function RewriteKids(hooks: Hooks, kids: seq<Option<Tree>>): (r: seq<Option<Tree>>)
    ensures |r| == |kids|
    ensures forall i | 0 <= i < |kids| ::
        r[i] == if kids[i].Some? then assert kids[i].value < kids[i]; Rewrite(hooks, kids[i].value) else None
    decreases kids, 0
  {
    if kids == [] then []
    else
      assert kids[0].Some? ==> kids[0].value < kids[0];
      [if kids[0].Some? then Rewrite(hooks, kids[0].value) else None] + RewriteKids(hooks, kids[1..])
  }

  /** The postorder hook hands back a node of the content it is given. */
  predicate PostUntouched(hooks: Hooks, tag: string, kids: seq<Option<Tree>>) {
    match hooks.post(tag, kids)
    case KeepPost => true
    case EditPost(t, ss) => t == tag && IsIdentity(ss, |kids|)
    case FreshPost(t, ss) => t == tag && IsIdentity(ss, |kids|)
    case _ => false
  }

  lemma PostKeeps(hooks: Hooks, tag: string, kids: seq<Option<Tree>>)
    requires PostUntouched(hooks, tag, kids)
    ensures ApplyPost(hooks, tag, kids) == Some(Node(tag, kids))
  {
    match hooks.post(tag, kids)
    case EditPost(_, ss) => PlantAllIdentity(ss, kids, 0); assert kids[0..] == kids;
    case FreshPost(_, ss) => PlantAllIdentity(ss, kids, 0); assert kids[0..] == kids;
    case _ =>
  }

  /** The hooks hand back every node of `t` with the content it had. */
  predicate Untouched(hooks: Hooks, t: Tree)
    decreases t, 1
  {
    hooks.pre(t.tag, t.kids) == KeepPre && PostUntouched(hooks, t.tag, t.kids) && UntouchedKids(hooks, t.kids)
  }

  predicate UntouchedKids(hooks: Hooks, kids: seq<Option<Tree>>)
    decreases kids, 0
  {
    forall i | 0 <= i < |kids| && kids[i].Some? ::
      assert kids[i].value < kids[i]; Untouched(hooks, kids[i].value)
  }
}
