/** `P4SymbolSuffixSet`: the heap-allocated tree of suffixes and the aliases read off it. */
module SuffixTree {
  import opened Suffixes

  class SuffixNode {
    var instances: nat
    var edges: map<string, SuffixNode>
    /** The suffix that leads here. */
    ghost const suffix: Path

    constructor (ghost suffix: Path)
      ensures instances == 0 && edges == map[] && this.suffix == suffix
    {
      this.suffix := suffix;
      instances := 0;
      edges := map[];
    }
  }

  /** How many symbols have suffix `c`, counting `extra` only up to its last `k` components. */
  ghost function Expected(paths: set<Path>, c: Path, extra: Path, k: nat): nat {
    |Sharing(paths - {extra}, c)| + if HasSuffix(extra, c) && |c| <= k then 1 else 0
  }

  lemma ExpectedNext(paths: set<Path>, c: Path, extra: Path, k: nat)
    requires k < |extra|
    ensures Expected(paths, c, extra, k + 1) ==
            Expected(paths, c, extra, k) + if c == Last(extra, k + 1) then 1 else 0
  {
    assert HasSuffix(extra, Last(extra, k + 1));
  }

  /** There is a node for `c` exactly if something has that suffix, and it counts how many. */
  ghost predicate Tallies(counts: map<Path, nat>, c: Path, n: nat) {
    if c in counts then counts[c] == n > 0 else n == 0
  }

  ghost predicate Counted(paths: set<Path>, counts: map<Path, nat>) {
    forall c | c != [] :: Tallies(counts, c, |Sharing(paths, c)|)
  }

  ghost predicate CountedTo(paths: set<Path>, counts: map<Path, nat>, extra: Path, k: nat) {
    forall c | c != [] :: Tallies(counts, c, Expected(paths, c, extra, k))
  }

  lemma CountedStart(paths: set<Path>, counts: map<Path, nat>, path: Path)
    requires path !in paths && Counted(paths, counts)
    ensures CountedTo(paths + {path}, counts, path, 0)
  {
    assert paths + {path} - {path} == paths;
    forall c | c != [] ensures Expected(paths + {path}, c, path, 0) == |Sharing(paths, c)| {
    }
  }

  /** One more component raises the count of one suffix. */
  lemma CountedNext(paths: set<Path>, counts: map<Path, nat>, path: Path, k: nat)
    requires k < |path| && CountedTo(paths, counts, path, k)
    ensures var d := Last(path, k + 1);
            CountedTo(paths, Raised(counts, d), path, k + 1)
  {
    var d, k' := Last(path, k + 1), k + 1;
    forall c | c != [] ensures Tallies(Raised(counts, d), c, Expected(paths, c, path, k')) {
      assert Tallies(counts, c, Expected(paths, c, path, k));
      ExpectedNext(paths, c, path, k);
      TalliesNext(counts, c, d, Expected(paths, c, path, k));
    }
  }

  lemma TalliesNext(counts: map<Path, nat>, c: Path, d: Path, n: nat)
    requires Tallies(counts, c, n)
    ensures Tallies(Raised(counts, d), c, n + if c == d then 1 else 0)
  {
  }

  lemma CountedEnd(paths: set<Path>, counts: map<Path, nat>, path: Path)
    requires path in paths && CountedTo(paths, counts, path, |path|)
    ensures Counted(paths, counts)
  {
    assert paths - {path} + {path} == paths;
    forall c | c != [] ensures Expected(paths, c, path, |path|) == |Sharing(paths, c)| {
      SharingGrows(paths - {path}, path, c);
    }
  }

  /** None of the shortest suffixes up to `k` components tells `c` apart. */
  ghost predicate SharedUpTo(paths: set<Path>, c: Path, k: nat) {
    forall j: nat | 1 <= j <= k :: !TellsApart(paths, c, j)
  }

  lemma SharedFurther(paths: set<Path>, c: Path, k: nat)
    requires SharedUpTo(paths, c, k)
    ensures SharedUpTo(paths, c, k + 1) <==> !TellsApart(paths, c, k + 1)
  {
  }

  lemma NeededIsReached(paths: set<Path>, c: Path, k: nat)
    requires 1 <= k <= |c| && SharedUpTo(paths, c, k - 1)
    requires k == |c| || TellsApart(paths, c, k)
    ensures Needed(paths, c) == k
  {
    NeededTells(paths, c, k);
  }

  /** A map of counts with an entry for `d`, and with that entry one higher. */
  ghost function Found(counts: map<Path, nat>, d: Path): map<Path, nat> {
    if d in counts then counts else counts[d := 0]
  }

  ghost function Raised(counts: map<Path, nat>, d: Path): map<Path, nat> {
    counts[d := 1 + if d in counts then counts[d] else 0]
  }

  lemma RaisedOnceFound(counts: map<Path, nat>, d: Path)
    ensures Raised(Found(counts, d), d) == Raised(counts, d)
  {
  }

  type Edges = map<string, SuffixNode>

  /** The nodes form a tree; the edge from a suffix is the component in front of it. */
  ghost predicate IsTree(root: SuffixNode, nodes: map<Path, SuffixNode>, edges: map<Path, Edges>) {
    && edges.Keys == nodes.Keys
    && [] in nodes && nodes[[]] == root
    && (forall c | c in nodes :: nodes[c].suffix == c)
    && (forall c, x {:trigger x in edges[c]} | c in nodes && x in edges[c] ::
          [x] + c in nodes && edges[c][x] == nodes[[x] + c])
    && (forall c, x {:trigger [x] + c} | [x] + c in nodes :: c in nodes && x in edges[c])
  }

  lemma IsTreeGrows(root: SuffixNode, nodes: map<Path, SuffixNode>, edges: map<Path, Edges>,
                    c: Path, component: string, next: SuffixNode)
    requires IsTree(root, nodes, edges) && c in nodes && component !in edges[c]
    requires next.suffix == [component] + c
    ensures var d := [component] + c;
            && d !in nodes && d != c
            && IsTree(root, nodes[d := next], edges[c := edges[c][component := next]][d := map[]])
  {
    var d := [component] + c;
    assert d[0] == component && d[1..] == c;
    forall b, x | [x] + b == d ensures x == component && b == c {
      assert ([x] + b)[1..] == b && ([x] + b)[0] == x;
    }
  }

  class SymbolSuffixSet {
    var symbols: set<string>
    const root: SuffixNode
    /** The node of each suffix, the root being that of the empty one. */
    ghost var nodes: map<Path, SuffixNode>
    ghost var repr: set<SuffixNode>

    constructor ()
      ensures Valid() && symbols == {} && fresh(repr)
    {
      symbols := {};
      root := new SuffixNode([]);
      nodes := map[[] := root];
      repr := {root};
      new;
      assert nodes.Values == {root} by {
        assert nodes[[]] == root;
      }
    }

    ghost predicate TreeOk()
      reads this`nodes, this`repr, nodes.Values
    {
      nodes.Values <= repr && IsTree(root, nodes, AllEdges())
    }

    ghost function AllEdges(): map<Path, Edges>
      reads this`nodes, nodes.Values
    {
      map c | c in nodes :: nodes[c].edges
    }

    /** What each node counts. */
    ghost function Counts(): map<Path, nat>
      reads this`nodes, nodes.Values
    {
      map c | c in nodes :: nodes[c].instances
    }

    ghost predicate Valid()
      reads this, nodes.Values
    {
      TreeOk() && Counted(Paths(symbols), Counts())
    }

    lemma LastGrows(path: Path, k: nat)
      requires k < |path|
      ensures Last(path, k + 1) == [path[|path| - 1 - k]] + Last(path, k)
    {
    }

    /** Hangs a new node below the one of `c`. */
    method Attach(node: SuffixNode, component: string, ghost c: Path) returns (next: SuffixNode)
      requires TreeOk() && c in nodes && node == nodes[c] && component !in node.edges
      modifies this`nodes, this`repr, node`edges
      ensures TreeOk() && fresh(next) && next.instances == 0
      ensures repr == old(repr) + {next} && nodes == old(nodes)[[component] + c := next] && [component] + c !in old(nodes)
    {
      ghost var edges := AllEdges();
      next := new SuffixNode([component] + c);
      IsTreeGrows(root, nodes, edges, c, component, next);
      node.edges := node.edges[component := next];
      nodes := nodes[[component] + c := next];
      repr := repr + {next};
      assert forall b | b in old(nodes) && b != c :: nodes[b] == old(nodes)[b] && nodes[b] != node;
      assert AllEdges() == edges[c := node.edges][[component] + c := map[]];
    }

    /** `edges.emplace`: finds the node below `node`, making one if there is none. */
    method Descend(node: SuffixNode, component: string, ghost c: Path) returns (next: SuffixNode)
      requires TreeOk() && c in nodes && node == nodes[c]
      modifies this`nodes, this`repr, node
      ensures TreeOk()
      ensures var d := [component] + c;
              && d in nodes && next == nodes[d]
              && Counts() == Found(old(Counts()), d)
              && old(repr) <= repr && fresh(repr - old(repr))
    {
      if component in node.edges {
        next := node.edges[component];
      } else {
        next := Attach(node, component, c);
        ghost var d := [component] + c;
        assert Counts() == old(Counts())[d := 0];
      }
    }

    method Bump(node: SuffixNode, ghost d: Path)
      requires TreeOk() && d in nodes && node == nodes[d]
      modifies node`instances
      ensures TreeOk()
      ensures Counts() == Raised(old(Counts()), d)
    {
      node.instances := node.instances + 1;
      assert AllEdges() == old(AllEdges());
      assert Counts() == Raised(old(Counts()), d);
    }

    method DescendAndBump(node: SuffixNode, component: string, ghost c: Path) returns (next: SuffixNode)
      requires TreeOk() && c in nodes && node == nodes[c]
      modifies this`nodes, this`repr, repr
      ensures TreeOk()
      ensures var d := [component] + c;
              && d in nodes && next == nodes[d]
              && Counts() == Raised(old(Counts()), d)
      ensures old(repr) <= repr && fresh(repr - old(repr))
    {
      RaisedOnceFound(Counts(), [component] + c);
      next := Descend(node, component, c);
      assert next in nodes.Values;
      Bump(next, [component] + c);
    }

    /** One step of the insertion loop. */
    method Count(node: SuffixNode, ghost paths: set<Path>, components: Path, k: nat) returns (next: SuffixNode)
      requires TreeOk() && CountedTo(paths, Counts(), components, k) && k < |components|
      requires Last(components, k) in nodes && node == nodes[Last(components, k)]
      modifies this`nodes, this`repr, repr
      ensures TreeOk() && CountedTo(paths, Counts(), components, k + 1)
      ensures Last(components, k + 1) in nodes && next == nodes[Last(components, k + 1)]
      ensures old(repr) <= repr && fresh(repr - old(repr))
    {
      LastGrows(components, k);
      ghost var was := Counts();
      next := DescendAndBump(node, components[|components| - 1 - k], Last(components, k));
      CountedNext(paths, was, components, k);
    }

    /** Works right to left through the components of a symbol. */
    method InsertSuffixes(ghost paths: set<Path>, components: Path)
      requires TreeOk() && CountedTo(paths, Counts(), components, 0)
      modifies this`nodes, this`repr, repr
      ensures TreeOk() && CountedTo(paths, Counts(), components, |components|)
      ensures fresh(repr - old(repr))
    {
      var node := root;
      assert Last(components, 0) == [];
      for k := 0 to |components|
        invariant TreeOk() && CountedTo(paths, Counts(), components, k)
        invariant Last(components, k) in nodes && node == nodes[Last(components, k)]
        invariant old(repr) <= repr && fresh(repr - old(repr))
      {
        node := Count(node, paths, components, k);
      }
    }

    method AddSymbol(symbol: string)
      requires Valid() && symbol != ""
      modifies this, repr
      ensures Valid() && symbols == old(symbols) + {symbol} && fresh(repr - old(repr))
    {
      if symbol in symbols { return; }
      PathsGrow(symbols, symbol);
      symbols := symbols + {symbol};
      ghost var paths := Paths(symbols);
      var components := Components(symbol);
      CountedStart(Paths(old(symbols)), Counts(), components);
      InsertSuffixes(paths, components);
      CountedEnd(paths, Counts(), components);
    }

    /** The node of a suffix of a stored symbol, and how its count tells the symbol apart. */
    lemma NodeOfSuffix(paths: set<Path>, c: Path, k: nat)
      requires TreeOk() && Counted(paths, Counts()) && c in paths && 0 < k <= |c|
      ensures Last(c, k) in nodes
      ensures nodes[Last(c, k)].instances < 2 <==> TellsApart(paths, c, k)
    {
      assert HasSuffix(c, Last(c, k));
      assert c in Sharing(paths, Last(c, k));
      assert Tallies(Counts(), Last(c, k), |Sharing(paths, Last(c, k))|);
    }

    lemma EdgeOfSuffix(c: Path, k: nat)
      requires TreeOk() && k < |c| && Last(c, k) in nodes && Last(c, k + 1) in nodes
      ensures var x := c[|c| - 1 - k];
              x in nodes[Last(c, k)].edges && nodes[Last(c, k)].edges[x] == nodes[Last(c, k + 1)]
    {
      LastGrows(c, k);
    }

    /** One step down, which the source checks is possible. */
    method Follow(node: SuffixNode, ghost paths: set<Path>, components: Path, k: nat) returns (next: SuffixNode)
      requires TreeOk() && Counted(paths, Counts()) && components in paths && k < |components|
      requires Last(components, k) in nodes && node == nodes[Last(components, k)]
      ensures Last(components, k + 1) in nodes && next == nodes[Last(components, k + 1)]
      ensures next.instances < 2 <==> TellsApart(paths, components, k + 1)
    {
      NodeOfSuffix(paths, components, k + 1);
      EdgeOfSuffix(components, k);
      next := node.edges[components[|components| - 1 - k]];
    }

    /** How many components it takes, read off the counts on the way down. */
    method CountNeeded(ghost paths: set<Path>, components: Path) returns (needed: nat)
      requires TreeOk() && Counted(paths, Counts()) && components in paths && components != []
      ensures needed == Needed(paths, components)
    {
      needed := 0;
      var node := root;
      assert Last(components, 0) == [];
      while needed < |components|
        invariant needed <= |components|
        invariant Last(components, needed) in nodes && node == nodes[Last(components, needed)]
        invariant SharedUpTo(paths, components, needed)
      {
        node := Follow(node, paths, components, needed);
        needed := needed + 1;
        if node.instances < 2 {
          NeededIsReached(paths, components, needed);
          return;
        }
        SharedFurther(paths, components, needed - 1);
      }
      NeededIsReached(paths, components, needed);
    }

    method ShortestUniqueSuffix(symbol: string) returns (r: string)
      requires Valid() && symbol in symbols
      ensures r == Alias(symbols, symbol)
    {
      var components := Components(symbol);
      var needed := CountNeeded(Paths(symbols), components);
      r := Join(components[|components| - needed..]);
    }
  }

  lemma PathsGrow(symbols: set<string>, symbol: string)
    requires symbol !in symbols
    ensures Components(symbol) !in Paths(symbols)
    ensures Paths(symbols + {symbol}) == Paths(symbols) + {Components(symbol)}
  {
    if Components(symbol) in Paths(symbols) {
      var s :| s in symbols && Components(s) == Components(symbol);
      ComponentsRoundTrip(s, symbol);
    }
  }

  lemma SharingGrows(paths: set<Path>, path: Path, c: Path)
    requires path !in paths
    ensures |Sharing(paths + {path}, c)| == |Sharing(paths, c)| + if HasSuffix(path, c) then 1 else 0
  {
    if HasSuffix(path, c) {
      assert Sharing(paths + {path}, c) == Sharing(paths, c) + {path};
    } else {
      assert Sharing(paths + {path}, c) == Sharing(paths, c);
    }
  }
}
