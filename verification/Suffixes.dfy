/** Symbol names as dot-separated components, and the alias a symbol should get. */
module Suffixes {

  /** Splitting at every dot; there is always at least one component. */
  function Components(s: string): (r: seq<string>)
    ensures |r| > 0
    ensures forall i | 0 <= i < |r| :: '.' !in r[i]
  {
    if s == "" then [""]
    else
      var rest := Components(s[1..]);
      if s[0] == '.' then [""] + rest else rest[0 := [s[0]] + rest[0]]
  }

  /** Joining as `shortestUniqueSuffix` does: a dot goes in only after something. */
  function JoinOnto(acc: string, cs: seq<string>): string
    decreases |cs|
  {
    if cs == [] then acc
    else JoinOnto((if acc == "" then acc else acc + ".") + cs[0], cs[1..])
  }

  function Join(cs: seq<string>): string {
    JoinOnto("", cs)
  }

  /** A symbol as the tree sees it: its components. */
  type Path = seq<string>

  function Paths(symbols: set<string>): set<Path> {
    set s | s in symbols :: Components(s)
  }

  /** The last `k` components. */
  function Last(c: Path, k: nat): Path
    requires k <= |c|
  {
    c[|c| - k..]
  }

  predicate HasSuffix(c: Path, d: Path) {
    |d| <= |c| && Last(c, |d|) == d
  }

  /** Those that share a suffix. */
  function Sharing(paths: set<Path>, d: Path): set<Path> {
    set c | c in paths && HasSuffix(c, d)
  }

  /** At most one of all has the last `k` components of `c`. */
  predicate TellsApart(paths: set<Path>, c: Path, k: nat) {
    k <= |c| && |Sharing(paths, Last(c, k))| < 2
  }

  /** The first from `k` on of which `p` holds, or else `n`. */
  function First(p: nat -> bool, k: nat, n: nat): (r: nat)
    requires k <= n
    ensures k <= r <= n
    decreases n - k
  {
    if k == n || p(k) then k else First(p, k + 1, n)
  }

  lemma {:induction false} FirstIsFirst(p: nat -> bool, k: nat, n: nat)
    requires k <= n
    ensures First(p, k, n) == n || p(First(p, k, n))
    ensures forall j: nat | k <= j < First(p, k, n) :: !p(j)
    decreases n - k
  {
    if k < n && !p(k) { FirstIsFirst(p, k + 1, n); }
  }

  function Telling(paths: set<Path>, c: Path): nat -> bool {
    (k: nat) => TellsApart(paths, c, k)
  }

  /** How many components it takes to tell `c` apart from all the others. */
  function Needed(paths: set<Path>, c: Path): (r: nat)
    requires c != []
    ensures 1 <= r <= |c|
  {
    First(Telling(paths, c), 1, |c|)
  }

  lemma NeededTells(paths: set<Path>, c: Path, j: nat)
    requires c != []
    ensures var r := Needed(paths, c);
            && (r == |c| || TellsApart(paths, c, r))
            && (1 <= j < r ==> !TellsApart(paths, c, j))
  {
    FirstIsFirst(Telling(paths, c), 1, |c|);
    assert 1 <= j < Needed(paths, c) ==> !Telling(paths, c)(j);
  }

  function AliasOf(paths: set<Path>, c: Path): string
    requires c != []
  {
    Join(Last(c, Needed(paths, c)))
  }

  function Alias(symbols: set<string>, s: string): string {
    AliasOf(Paths(symbols), Components(s))
  }

  // ---------------------------------------------------------------- what aliases are

  predicate IsShared(paths: set<Path>, c: Path, d: Path) {
    exists e :: e in paths && e != c && HasSuffix(e, d)
  }

  /** The alias ends in a suffix no other symbol has; if there is none it is the whole name. */
  lemma AliasIsUnique(paths: set<Path>, c: Path)
    requires c in paths && c != []
    ensures var n := Needed(paths, c); n == |c| || !IsShared(paths, c, Last(c, n))
  {
    NeededTells(paths, c, 1);
    SharedUnlessToldApart(paths, c, Needed(paths, c));
  }

  /** Every shorter suffix than the alias is shared with another symbol. */
  lemma AliasIsShortest(paths: set<Path>, c: Path, j: nat)
    requires c in paths && c != [] && 1 <= j < Needed(paths, c)
    ensures IsShared(paths, c, Last(c, j))
  {
    NeededTells(paths, c, j);
    SharedUnlessToldApart(paths, c, j);
  }

  lemma SharedUnlessToldApart(paths: set<Path>, c: Path, n: nat)
    requires c in paths && n <= |c|
    ensures IsShared(paths, c, Last(c, n)) <==> !TellsApart(paths, c, n)
  {
    assert HasSuffix(c, Last(c, n));
    SharedIfTwo(paths, c, Last(c, n));
  }

  lemma SharedIfTwo(paths: set<Path>, c: Path, d: Path)
    requires c in paths && HasSuffix(c, d)
    ensures |Sharing(paths, d)| >= 2 <==> IsShared(paths, c, d)
  {
    AnotherIfTwo(Sharing(paths, d), c);
    assert forall e :: e in Sharing(paths, d) <==> e in paths && HasSuffix(e, d);
  }

  lemma AnotherIfTwo<T>(all: set<T>, s: T)
    requires s in all
    ensures |all| >= 2 <==> exists t :: t in all && t != s
  {
    assert |all - {s}| == |all| - 1;
    if t :| t in all && t != s {
      assert t in all - {s};
    } else {
      assert all - {s} == {};
    }
  }

  /** Joining and splitting again, with something already joined. */
  lemma {:induction false} ComponentsOfJoin(acc: string, cs: seq<string>)
    requires acc != "" && forall i | 0 <= i < |cs| :: '.' !in cs[i]
    ensures Components(JoinOnto(acc, cs)) == Components(acc) + cs
    decreases |cs|
  {
    if cs == [] {
      assert Components(acc) + [] == Components(acc);
    } else {
      var more := acc + "." + cs[0];
      ComponentsOfJoin(more, cs[1..]);
      ComponentsAppend(acc, cs[0]);
      assert Components(acc) + [cs[0]] + cs[1..] == Components(acc) + cs;
    }
  }

  lemma {:induction false} ComponentsAppend(acc: string, c: string)
    requires '.' !in c
    ensures Components(acc + "." + c) == Components(acc) + [c]
    decreases |acc|
  {
    if acc == "" {
      assert (acc + "." + c)[1..] == c;
      DotFree(c);
    } else {
      assert (acc + "." + c)[1..] == acc[1..] + "." + c;
      ComponentsAppend(acc[1..], c);
    }
  }

  lemma {:induction false} DotFree(c: string)
    requires '.' !in c
    ensures Components(c) == [c]
  {
    if c != "" {
      DotFree(c[1..]);
      assert c[0] in c && [c[0]] + c[1..] == c;
      assert [c[1..]][1..] == [];
    }
  }

  /** Joining loses nothing exactly if the first component is not empty, or is the only one. */
  lemma {:induction false} JoinRoundTrip(cs: seq<string>)
    requires cs != [] && forall i | 0 <= i < |cs| :: '.' !in cs[i]
    ensures Components(Join(cs)) == cs <==> cs[0] != "" || cs == [""]
    ensures |Components(Join(cs))| <= |cs|
    decreases |cs|
  {
    DotFree(cs[0]);
    assert "" + cs[0] == cs[0];
    assert JoinOnto("", cs) == JoinOnto(cs[0], cs[1..]);
    assert [cs[0]] + cs[1..] == cs;
    if cs[0] != "" {
      ComponentsOfJoin(cs[0], cs[1..]);
    } else if |cs| > 1 {
      JoinRoundTrip(cs[1..]);
    } else {
      assert cs == [""];
    }
  }

  lemma {:induction false} ComponentsRoundTrip(s: string, t: string)
    requires Components(s) == Components(t)
    ensures s == t
    decreases |s| + |t|
  {
    ComponentsLength(s);
    ComponentsLength(t);
    if s != "" {
      var a, b := Components(s[1..]), Components(t[1..]);
      assert s[0] == '.' <==> Components(s)[0] == "";
      assert t[0] == '.' <==> Components(t)[0] == "";
      if s[0] == '.' {
        assert Components(s)[1..] == a && Components(t)[1..] == b;
      } else {
        assert Components(s)[0] == [s[0]] + a[0] && Components(t)[0] == [t[0]] + b[0];
        assert Components(s)[0][1..] == a[0] && Components(t)[0][1..] == b[0];
        assert Components(s)[1..] == a[1..] && Components(t)[1..] == b[1..];
        assert a == [a[0]] + a[1..] && b == [b[0]] + b[1..];
      }
      ComponentsRoundTrip(s[1..], t[1..]);
    }
  }

  function TotalLength(cs: seq<string>): nat {
    if cs == [] then 0 else |cs[0]| + 1 + TotalLength(cs[1..])
  }

  lemma {:induction false} ComponentsLength(s: string)
    ensures TotalLength(Components(s)) == |s| + 1
  {
    if s == "" {
      assert [""][1..] == [];
    } else {
      var rest := Components(s[1..]);
      ComponentsLength(s[1..]);
      if s[0] == '.' {
        assert Components(s)[1..] == rest;
      } else {
        assert Components(s)[1..] == rest[1..];
      }
    }
  }

  /** No other symbol ends in what tells `c` apart. */
  lemma NotSharedWith(paths: set<Path>, c: Path, d: Path)
    requires c in paths && d in paths && c != [] && Needed(paths, c) < |c| && HasSuffix(d, Last(c, Needed(paths, c)))
    ensures c == d
  {
    AliasIsUnique(paths, c);
  }

  // ---------------------------------------------------------------- exactly when aliases clash

  function Empties(k: nat): (r: Path)
    ensures |r| == k
  {
    if k == 0 then [] else [""] + Empties(k - 1)
  }

  /** Without the leading empty components; the last component stays. */
  function Strip(c: Path): (r: Path)
    requires c != []
    ensures r != [] && |r| <= |c|
  {
    if |c| > 1 && c[0] == "" then Strip(c[1..]) else c
  }

  predicate AreComponents(c: Path) {
    c != [] && forall i | 0 <= i < |c| :: '.' !in c[i]
  }

  lemma {:induction false} JoinStrips(c: Path)
    requires AreComponents(c)
    ensures Components(Join(c)) == Strip(c)
    decreases |c|
  {
    JoinRoundTrip(c);
    if |c| > 1 && c[0] == "" {
      assert JoinOnto("", c) == JoinOnto("" + c[0], c[1..]);
      JoinStrips(c[1..]);
    } else {
      assert |c| == 1 ==> c == [c[0]];
    }
  }

  lemma {:induction false} StripShape(c: Path, k: nat)
    requires c != [] && |c| == k + |Strip(c)|
    ensures c == Empties(k) + Strip(c)
    decreases |c|
  {
    if k == 0 {
      assert Empties(0) + Strip(c) == Strip(c);
    } else {
      StripShape(c[1..], k - 1);
      Grouped([""], Empties(k - 1), Strip(c));
      assert c == [""] + c[1..];
    }
  }

  lemma {:induction false} StripPadded(k: nat, c: Path)
    requires c != []
    ensures Strip(Empties(k) + c) == Strip(c)
  {
    if k == 0 {
      assert Empties(0) + c == c;
    } else {
      assert (Empties(k) + c)[1..] == Empties(k - 1) + c;
      StripPadded(k - 1, c);
    }
  }

  lemma {:induction false} MoreEmpties(i: nat, j: nat, c: Path)
    ensures Empties(i + j) + c == Empties(i) + (Empties(j) + c)
  {
    if i == 0 {
      assert Empties(0) + (Empties(j) + c) == Empties(j) + c;
    } else {
      MoreEmpties(i - 1, j, c);
      Grouped([""], Empties(i + j - 1), c);
      Grouped([""], Empties(i - 1), Empties(j) + c);
    }
  }

  lemma Grouped(a: Path, b: Path, c: Path)
    ensures a + b + c == a + (b + c)
  {
  }

  /** The same after stripping: one is the other behind empty components. */
  lemma StripsAlike(a: Path, b: Path, k: nat)
    requires a != [] && b != [] && |a| == k + |b|
    ensures Strip(a) == Strip(b) <==> a == Empties(k) + b
  {
    if Strip(a) == Strip(b) { ShapesAlike(a, b, Strip(a), k, |b| - |Strip(a)|); }
    if a == Empties(k) + b { StripPadded(k, b); }
  }

  lemma ShapesAlike(a: Path, b: Path, c: Path, k: nat, j: nat)
    requires a != [] && b != [] && |a| == k + |b| && |b| == j + |c| && Strip(a) == Strip(b) == c
    ensures a == Empties(k) + b
  {
    StripShape(a, k + j);
    StripShape(b, j);
    MoreEmpties(k, j, c);
  }

  lemma AliasesStripAlike(paths: set<Path>, c: Path, d: Path)
    requires AreComponents(c) && AreComponents(d)
    ensures AliasOf(paths, c) == AliasOf(paths, d) <==>
            Strip(Last(c, Needed(paths, c))) == Strip(Last(d, Needed(paths, d)))
  {
    var a, b := Last(c, Needed(paths, c)), Last(d, Needed(paths, d));
    JoinStrips(a);
    JoinStrips(b);
    if Strip(a) == Strip(b) { ComponentsRoundTrip(Join(a), Join(b)); }
  }

  /** `c` ends in all of `d` with empty components before it, and these make up all of `c` or are
      shared by no other symbol. */
  ghost predicate Padded(paths: set<Path>, c: Path, d: Path) {
    exists k: nat :: k >= 1 && PaddedBy(paths, c, d, k)
  }

  predicate PaddedBy(paths: set<Path>, c: Path, d: Path, k: nat) {
    var e := Empties(k) + d;
    HasSuffix(c, e) && (|e| == |c| || !IsShared(paths, c, e))
  }

  /** Two symbols get the same alias if and only if one is the other behind empty components. */
  lemma AliasesClashExactly(symbols: set<string>, s: string, t: string)
    requires s in symbols && t in symbols && s != t
    ensures var (paths, c, d) := (Paths(symbols), Components(s), Components(t));
            Alias(symbols, s) == Alias(symbols, t) <==> Padded(paths, c, d) || Padded(paths, d, c)
  {
    if Components(s) == Components(t) { ComponentsRoundTrip(s, t); }
    PathsClashExactly(Paths(symbols), Components(s), Components(t));
  }

  lemma PathsClashExactly(paths: set<Path>, c: Path, d: Path)
    requires c in paths && d in paths && c != d && AreComponents(c) && AreComponents(d)
    ensures AliasOf(paths, c) == AliasOf(paths, d) <==> Padded(paths, c, d) || Padded(paths, d, c)
  {
    if AliasOf(paths, c) == AliasOf(paths, d) {
      if Needed(paths, c) >= Needed(paths, d) {
        ClashIsPadded(paths, c, d);
      } else {
        ClashIsPadded(paths, d, c);
      }
    }
    if k: nat :| k >= 1 && PaddedBy(paths, c, d, k) {
      PaddedClashes(paths, c, d, k);
    }
    if k: nat :| k >= 1 && PaddedBy(paths, d, c, k) {
      PaddedClashes(paths, d, c, k);
    }
  }

  lemma ClashIsPadded(paths: set<Path>, c: Path, d: Path)
    requires c in paths && d in paths && c != d && AreComponents(c) && AreComponents(d)
    requires Needed(paths, c) >= Needed(paths, d) && AliasOf(paths, c) == AliasOf(paths, d)
    ensures Padded(paths, c, d)
  {
    var n, m := Needed(paths, c), Needed(paths, d);
    AliasesStripAlike(paths, c, d);
    StripsAlike(Last(c, n), Last(d, m), n - m);
    assert HasSuffix(c, Last(c, n));
    SuffixOfSuffix(c, Empties(n - m), Last(d, m));
    EndsInAll(paths, d, c);
    if n == m {
      assert Empties(0) + d == d && HasSuffix(d, Last(c, n));
      EndsInAll(paths, c, d);
      assert false;
    }
    AliasIsUnique(paths, c);
    assert PaddedBy(paths, c, d, n - m);
  }

  /** What tells `d` apart from a symbol that ends in it is all of `d`. */
  lemma EndsInAll(paths: set<Path>, d: Path, c: Path)
    requires c in paths && d in paths && c != d && d != [] && HasSuffix(c, Last(d, Needed(paths, d)))
    ensures Needed(paths, d) == |d| && Last(d, |d|) == d
  {
    if Needed(paths, d) < |d| { NotSharedWith(paths, d, c); }
  }

  lemma SuffixOfSuffix(c: Path, d: Path, e: Path)
    requires HasSuffix(c, d + e)
    ensures HasSuffix(c, e)
  {
    assert (d + e)[|d|..] == e;
    assert Last(c, |d + e|)[|d|..] == Last(c, |e|);
  }

  lemma PaddedClashes(paths: set<Path>, c: Path, d: Path, k: nat)
    requires c in paths && d in paths && c != d && AreComponents(c) && AreComponents(d)
    requires k >= 1 && PaddedBy(paths, c, d, k)
    ensures AliasOf(paths, c) == AliasOf(paths, d)
  {
    var n, m := Needed(paths, c), |d|;
    PaddedNeedsMore(paths, c, d, k);
    PaddedNeedsNoMore(paths, c, d, k);
    LastOfPadded(c, d, k, n);
    StripsAlike(Last(c, n), Last(d, m), n - m);
    AliasesStripAlike(paths, c, d);
  }

  /** What both end in does not tell them apart. */
  lemma PaddedNeedsMore(paths: set<Path>, c: Path, d: Path, k: nat)
    requires c in paths && d in paths && c != d && d != [] && k >= 1 && HasSuffix(c, Empties(k) + d)
    ensures |d| < Needed(paths, c) && Needed(paths, d) == |d| && Last(d, |d|) == d
  {
    SuffixOfSuffix(c, Empties(k), d);
    EndsInEvery(c, d, Needed(paths, d));
    EndsInAll(paths, d, c);
    if Needed(paths, c) <= |d| {
      EndsAlike(c, d, Needed(paths, c));
      NotSharedWith(paths, c, d);
    }
  }

  lemma EndsInEvery(c: Path, d: Path, m: nat)
    requires HasSuffix(c, d) && m <= |d|
    ensures HasSuffix(c, Last(d, m))
  {
    assert d[..|d| - m] + Last(d, m) == d;
    SuffixOfSuffix(c, d[..|d| - m], Last(d, m));
  }

  lemma EndsAlike(c: Path, d: Path, n: nat)
    requires HasSuffix(c, d) && n <= |d|
    ensures HasSuffix(d, Last(c, n))
  {
    LastOfLast(c, n, |d|);
  }

  lemma PaddedNeedsNoMore(paths: set<Path>, c: Path, d: Path, k: nat)
    requires c in paths && d != [] && PaddedBy(paths, c, d, k)
    ensures Needed(paths, c) <= k + |d|
  {
    var j := k + |d|;
    if j < Needed(paths, c) { AliasIsShortest(paths, c, j); }
  }

  lemma LastOfPadded(c: Path, d: Path, k: nat, n: nat)
    requires HasSuffix(c, Empties(k) + d) && |d| <= n <= k + |d|
    ensures Last(c, n) == Empties(n - |d|) + d
  {
    LastOfLast(c, n, k + |d|);
    MoreEmpties(k + |d| - n, n - |d|, d);
  }

  lemma LastOfLast(c: Path, n: nat, j: nat)
    requires n <= j <= |c|
    ensures Last(c, n) == Last(c, j)[j - n..]
  {
  }

  predicate NoEmptyComponent(s: string) {
    "" !in Components(s)
  }

  /** Distinct symbols without empty components get distinct aliases. */
  lemma AliasesDiffer(symbols: set<string>, s: string, t: string)
    requires s in symbols && t in symbols && NoEmptyComponent(s) && NoEmptyComponent(t)
    ensures Alias(symbols, s) == Alias(symbols, t) ==> s == t
  {
    if s != t {
      AliasesClashExactly(symbols, s, t);
      NeverPadded(Paths(symbols), Components(s), Components(t));
      NeverPadded(Paths(symbols), Components(t), Components(s));
    }
  }

  lemma NeverPadded(paths: set<Path>, c: Path, d: Path)
    requires "" !in c
    ensures !Padded(paths, c, d)
  {
    forall k: nat | k >= 1 ensures !PaddedBy(paths, c, d, k) {
      if HasSuffix(c, Empties(k) + d) { StartsInside(c, Empties(k) + d); }
    }
  }

  lemma StartsInside(c: Path, d: Path)
    requires HasSuffix(c, d) && d != []
    ensures d[0] in c
  {
    assert Last(c, |d|)[0] in c;
  }

  lemma TwoSymbols()
    ensures Components("a") == ["a"] && Components(".a") == ["", "a"]
    ensures Join(["a"]) == Join(["", "a"]) == "a"
  {
    DotFree("a");
    assert ".a"[1..] == "a";
    assert ["", "a"][1..] == ["a"] && ["a"][1..] == [];
    assert "" + "a" == "a" && "" + "" == "";
    assert JoinOnto("", ["a"]) == JoinOnto("a", []) == "a";
    assert JoinOnto("", ["", "a"]) == JoinOnto("", ["a"]);
  }

  /** With empty components aliases may clash: joining drops a leading empty one. */
  lemma EmptyComponentsClash()
    ensures Alias({".a", "a"}, ".a") == Alias({".a", "a"}, "a") == "a"
  {
    TwoSymbols();
    var paths := Paths({".a", "a"});
    assert ["", "a"] in paths && ["a"] in paths;
    assert Empties(1) == [""] && Empties(1) + ["a"] == ["", "a"];
    assert PaddedBy(paths, ["", "a"], ["a"], 1);
    AliasesClashExactly({".a", "a"}, ".a", "a");
    assert Last(["a"], 1) == ["a"];
  }
}
