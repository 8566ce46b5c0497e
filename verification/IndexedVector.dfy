/** `IR::IndexedVector`: a vector that keeps an index of its declarations by name. */
module IndexedVectors {
  import opened Wrappers
  import opened Vectors

  /** The name of an element that is a declaration. */
  type Naming<!T> = T -> Option<string>

  function NameSet<T>(name: Naming<T>, x: T): multiset<string> {
    if name(x).Some? then multiset{name(x).value} else multiset{}
  }

  /** How often each name is declared. */
  function Declared<T>(name: Naming<T>, s: seq<T>): multiset<string> {
    if s == [] then multiset{} else Declared(name, s[..|s| - 1]) + NameSet(name, s[|s| - 1])
  }

  predicate Distinct<T>(name: Naming<T>, s: seq<T>) {
    forall n | n in Declared(name, s) :: Declared(name, s)[n] == 1
  }

  /** The index holds exactly the declarations in the vector, each under its name. */
  predicate Exact<T(==)>(name: Naming<T>, s: seq<T>, index: map<string, T>) {
    && Declared(name, s) == multiset(index.Keys)
    && forall n | n in index :: index[n] in s && name(index[n]) == Some(n)
  }

  lemma {:induction false} DeclaredAppend<T>(name: Naming<T>, s: seq<T>, t: seq<T>)
    ensures Declared(name, s + t) == Declared(name, s) + Declared(name, t)
    decreases |t|
  {
    if t == [] {
      assert s + t == s;
    } else {
      var n := |t| - 1;
      assert (s + t)[..|s| + n] == s + t[..n];
      DeclaredAppend(name, s, t[..n]);
    }
  }

  lemma DeclaredAround<T>(name: Naming<T>, s: seq<T>, a: T, t: seq<T>)
    ensures Declared(name, s + [a] + t) == Declared(name, s + t) + NameSet(name, a)
  {
    DeclaredAppend(name, s + [a], t);
    DeclaredAppend(name, s, t);
    assert (s + [a])[..|s|] == s;
  }

  lemma {:induction false} DeclaredIfNamed<T>(name: Naming<T>, s: seq<T>, x: T)
    requires x in s && name(x).Some?
    ensures name(x).value in Declared(name, s)
  {
    var n := |s| - 1;
    if x != s[n] {
      assert x in s[..n];
      DeclaredIfNamed(name, s[..n], x);
    }
  }

  /** An exact index finds every declaration, and only those there are. */
  lemma ExactLookup<T>(name: Naming<T>, s: seq<T>, index: map<string, T>, x: T)
    requires Exact(name, s, index) && x in s && name(x).Some?
    ensures name(x).value in index && index[name(x).value] == x
  {
    var n := name(x).value;
    DeclaredIfNamed(name, s, x);
    assert n in multiset(index.Keys);
    var i :| 0 <= i < |s| && s[i] == x;
    if index[n] != x {
      var j :| 0 <= j < |s| && s[j] == index[n];
      TwoOfAName(name, s, if i < j then i else j, if i < j then j else i, n);
    }
  }

  lemma TwoOfAName<T>(name: Naming<T>, s: seq<T>, i: nat, j: nat, n: string)
    requires i < j < |s| && name(s[i]) == name(s[j]) == Some(n)
    ensures Declared(name, s)[n] >= 2
  {
    assert s == s[..j] + [s[j]] + s[j + 1..];
    DeclaredAround(name, s[..j], s[j], s[j + 1..]);
    DeclaredAppend(name, s[..j], s[j + 1..]);
    DeclaredIfNamed(name, s[..j], s[i]);
  }

  lemma ExactIsDistinct<T>(name: Naming<T>, s: seq<T>, index: map<string, T>)
    requires Exact(name, s, index)
    ensures Distinct(name, s)
  {
    forall n | n in Declared(name, s) ensures Declared(name, s)[n] == 1 {
      assert n in multiset(index.Keys);
    }
  }

  predicate Clashes<T>(name: Naming<T>, index: map<string, T>, a: T) {
    name(a).Some? && name(a).value in index
  }

  function Added<T>(name: Naming<T>, index: map<string, T>, a: T): map<string, T> {
    if name(a).Some? && name(a).value !in index then index[name(a).value := a] else index
  }

  lemma AddedIsExact<T>(name: Naming<T>, s: seq<T>, a: T, t: seq<T>, index: map<string, T>)
    requires Exact(name, s + t, index)
    ensures Clashes(name, index, a) ==> !Distinct(name, s + [a] + t)
    ensures !Clashes(name, index, a) ==> Exact(name, s + [a] + t, Added(name, index, a))
  {
    DeclaredAround(name, s, a, t);
    if Clashes(name, index, a) {
      var n := name(a).value;
      assert n in Declared(name, s + t);
      assert Declared(name, s + [a] + t)[n] >= 2;
    } else {
      if name(a).Some? { KeysAdded(index, name(a).value, a); }
      StaysIn(s, a, t);
    }
  }

  lemma KeysAdded<T>(index: map<string, T>, n: string, a: T)
    requires n !in index
    ensures multiset(index[n := a].Keys) == multiset(index.Keys) + multiset{n}
  {
    assert index[n := a].Keys == index.Keys + {n};
  }

  lemma StaysIn<T>(s: seq<T>, a: T, t: seq<T>)
    ensures a in s + [a] + t && forall x | x in s + t :: x in s + [a] + t
  {
    assert (s + [a] + t)[|s|] == a;
  }

  /** Adding more does not make names distinct again. */
  lemma ClashStays<T>(name: Naming<T>, s: seq<T>, t: seq<T>, more: seq<T>)
    requires !Distinct(name, s + t)
    ensures !Distinct(name, s + more + t)
  {
    DeclaredAppend(name, s, t);
    DeclaredAppend(name, s + more, t);
    DeclaredAppend(name, s, more);
    var n :| n in Declared(name, s + t) && Declared(name, s + t)[n] != 1;
    assert Declared(name, s + more + t)[n] >= 2;
  }

  function Removed<T>(name: Naming<T>, index: map<string, T>, a: T): map<string, T> {
    if name(a).Some? then index - {name(a).value} else index
  }

  lemma RemovedIsExact<T>(name: Naming<T>, s: seq<T>, a: T, t: seq<T>, index: map<string, T>)
    requires Exact(name, s + [a] + t, index)
    ensures name(a).Some? ==> name(a).value in index
    ensures Exact(name, s + t, Removed(name, index, a))
  {
    DeclaredAround(name, s, a, t);
    assert (s + [a] + t)[|s|] == a;
    if name(a).Some? {
      var n := name(a).value;
      assert n in Declared(name, s + [a] + t);
      assert multiset(index.Keys - {n}) == multiset(index.Keys) - multiset{n};
    }
    var removed := Removed(name, index, a);
    forall m | m in removed ensures removed[m] in s + t {
      assert removed[m] in s + [a] + t && removed[m] != a;
    }
  }

  /** Nothing the visitor returned is of the wrong type; other kinds of vectors are refused here. */
  predicate Indexable<T>(r: Returned<T>) {
    r.Nothing? || r.Element? || r.Elements?
  }

  predicate AllIndexable<T>(v: VisitorOf<T>, s: seq<T>) {
    forall k | 0 <= k < |s| :: Indexable(v(k, s[k]))
  }

  lemma AllVisited<T>(v: VisitorOf<T>, s: seq<T>)
    requires AllFit(v, s[..|s|])
    ensures AllFit(v, s) && Stage(v, s, |s|) == FlatMap(v, s)
  {
    assert s[..|s|] == s;
  }

  /** No name is declared twice at any time while the vector is visited. */
  ghost predicate NeverClashes<T>(name: Naming<T>, v: VisitorOf<T>, s: seq<T>, k: nat)
    requires k <= |s| && AllFit(v, s[..k])
  {
    Distinct(name, Stage(v, s, k)) && (k > 0 ==> AllFit(v, s[..k - 1]) && NeverClashes(name, v, s, k - 1))
  }

  /** Everything can be indexed, and no name is ever declared twice. */
  ghost predicate CleanVisit<T>(name: Naming<T>, v: VisitorOf<T>, s: seq<T>) {
    AllIndexable(v, s) && AllFit(v, s[..|s|]) && NeverClashes(name, v, s, |s|)
  }

  lemma CleanSoFar<T>(name: Naming<T>, v: VisitorOf<T>, s: seq<T>, k: nat)
    requires k < |s| && AllFit(v, s[..k])
    ensures CleanVisit(name, v, s) ==> NeverClashes(name, v, s, k) && Indexable(v(k, s[k]))
  {
    if CleanVisit(name, v, s) { ClashesEarlier(name, v, s, k, |s|); }
  }

  lemma {:induction false} ClashesEarlier<T>(name: Naming<T>, v: VisitorOf<T>, s: seq<T>, k: nat, n: nat)
    requires k <= n <= |s| && AllFit(v, s[..n]) && NeverClashes(name, v, s, n)
    ensures AllFit(v, s[..k]) && NeverClashes(name, v, s, k)
    decreases n
  {
    if k < n { ClashesEarlier(name, v, s, k, n - 1); }
  }

  lemma Swapped(v: VisitorOf<string>)
    requires v(0, "a") == Element("b") && v(1, "b") == Element("a")
    ensures AllFit(v, ["a", "b"]) && FlatMap(v, ["a", "b"]) == ["b", "a"]
    ensures AllFit(v, ["a", "b"][..1]) && AllFit(v, ["a", "b"][..2]) && Stage(v, ["a", "b"], 1) == ["b", "b"]
  {
    var s := ["a", "b"];
    assert s[..2] == s && s[..1] == ["a"] && ["a"][..0] == [] && s[1..] == ["b"];
    assert FlatMap(v, ["a"]) == ["b"];
  }

  /** Swapping two names one after the other clashes, though names are distinct before and after. */
  lemma SwappingNamesClashes(v: VisitorOf<string>, name: Naming<string>)
    requires v(0, "a") == Element("b") && v(1, "b") == Element("a") && forall x :: name(x) == Some(x)
    ensures Distinct(name, ["a", "b"]) && AllFit(v, ["a", "b"]) && Distinct(name, FlatMap(v, ["a", "b"]))
    ensures AllFit(v, ["a", "b"][..2]) && !NeverClashes(name, v, ["a", "b"], 2)
  {
    Swapped(v);
    DeclaredPair(name, "a", "b");
    DeclaredPair(name, "b", "a");
    DeclaredPair(name, "b", "b");
    assert Declared(name, ["b", "b"])["b"] == 2;
    assert !NeverClashes(name, v, ["a", "b"], 1);
    NeverClashesNext(name, v, ["a", "b"], 1);
  }

  lemma DeclaredPair(name: Naming<string>, x: string, y: string)
    requires forall x :: name(x) == Some(x)
    ensures Declared(name, [x, y]) == multiset{x, y}
  {
    assert [x, y][..1] == [x] && [x][..0] == [];
    assert Declared(name, [x]) == multiset{x};
  }

  lemma NothingVisited<T>(name: Naming<T>, v: VisitorOf<T>, s: seq<T>)
    ensures AllFit(v, s[..0]) && FlatMap(v, s[..0]) == [] && Stage(v, s, 0) == s
    ensures Distinct(name, s) <==> NeverClashes(name, v, s, 0)
  {
    assert s[..0] == [];
  }

  lemma NeverClashesNext<T>(name: Naming<T>, v: VisitorOf<T>, s: seq<T>, k: nat)
    requires k < |s| && AllFit(v, s[..k]) && AllFit(v, s[..k + 1])
    ensures NeverClashes(name, v, s, k + 1) <==> NeverClashes(name, v, s, k) && Distinct(name, Stage(v, s, k + 1))
  {
  }

  class IndexedVector<T(==)> {
    const name: Naming<T>
    var vec: seq<T>
    var declarations: map<string, T>
    /** Set once a name has been declared twice; the index is not relied on from then on. */
    var invalid: bool

    predicate Valid()
      reads this
    {
      !invalid ==> Exact(name, vec, declarations)
    }

    constructor (name: Naming<T>)
      ensures Valid() && vec == [] && !invalid && this.name == name
    {
      this.name := name;
      vec := [];
      declarations := map[];
      invalid := false;
    }

    method InsertInMap(a: T)
      modifies this`declarations, this`invalid
      ensures declarations == Added(name, old(declarations), a)
      ensures invalid == (old(invalid) || Clashes(name, old(declarations), a))
    {
      if name(a).Some? {
        if name(a).value in declarations {
          invalid := true;
        } else {
          declarations := declarations[name(a).value := a];
        }
      }
    }

    /** False where the source gives up because the name is not in the index. */
    method RemoveFromMap(a: T) returns (ok: bool)
      modifies this`declarations
      ensures ok == (name(a).Some? ==> name(a).value in old(declarations))
      ensures declarations == if ok then Removed(name, old(declarations), a) else old(declarations)
    {
      if name(a).Some? {
        if name(a).value !in declarations { return false; }
        declarations := declarations - {name(a).value};
      }
      ok := true;
    }

    method Erase(i: nat) returns (ok: bool)
      requires Valid() && i < |vec|
      modifies this
      ensures Valid() && invalid == old(invalid) && (!invalid ==> ok)
      ensures vec == if ok then old(vec)[..i] + old(vec)[i + 1..] else old(vec)
    {
      ghost var s, t, index := vec[..i], vec[i + 1..], declarations;
      assert vec == s + [vec[i]] + t;
      if !invalid { RemovedIsExact(name, s, vec[i], t, index); }
      ok := RemoveFromMap(vec[i]);
      if ok { vec := vec[..i] + vec[i + 1..]; }
    }

    /** The elements are indexed first and put in afterwards. */
    method Insert(i: nat, es: seq<T>)
      requires Valid() && i <= |vec|
      modifies this
      ensures Valid() && vec == old(vec)[..i] + es + old(vec)[i..]
      ensures invalid == (old(invalid) || !Distinct(name, vec))
    {
      ghost var s, t := vec[..i], vec[i..];
      assert s + es[..0] + t == vec;
      if !invalid { ExactIsDistinct(name, vec, declarations); }
      for k := 0 to |es|
        invariant vec == old(vec) && (old(invalid) ==> invalid)
        invariant !invalid ==> Exact(name, s + es[..k] + t, declarations)
        invariant invalid ==> old(invalid) || !Distinct(name, s + es[..k] + t)
      {
        ghost var before := s + es[..k];
        assert s + es[..k + 1] == before + [es[k]];
        if !invalid {
          AddedIsExact(name, before, es[k], t, declarations);
        } else if !Distinct(name, before + t) {
          ClashStays(name, before, t, [es[k]]);
        }
        InsertInMap(es[k]);
      }
      assert es[..|es|] == es;
      if !invalid { ExactIsDistinct(name, s + es + t, declarations); }
      vec := vec[..i] + es + vec[i..];
    }

    method Replace(i: nat, a: T) returns (ok: bool)
      requires Valid() && i < |vec|
      modifies this
      ensures Valid() && (!old(invalid) ==> ok)
      ensures vec == if ok then old(vec)[i := a] else old(vec)
      ensures invalid == (old(invalid) || !Distinct(name, vec))
    {
      ghost var s, t, index := vec[..i], vec[i + 1..], declarations;
      assert vec == s + [vec[i]] + t && vec[i := a] == s + [a] + t;
      if !invalid {
        RemovedIsExact(name, s, vec[i], t, index);
        AddedIsExact(name, s, a, t, Removed(name, index, vec[i]));
      }
      ok := RemoveFromMap(vec[i]);
      if ok {
        vec := vec[i := a];
        InsertInMap(a);
        if !invalid { ExactIsDistinct(name, vec, declarations); }
      }
    }

    method PushBack(a: T)
      requires Valid()
      modifies this
      ensures Valid() && vec == old(vec) + [a]
      ensures invalid == (old(invalid) || !Distinct(name, vec))
    {
      assert vec + [] == vec && vec + [a] + [] == vec + [a];
      if !invalid { AddedIsExact(name, vec, a, [], declarations); }
      vec := vec + [a];
      InsertInMap(a);
      if !invalid { ExactIsDistinct(name, vec, declarations); }
    }

    method PopBack() returns (ok: bool)
      requires Valid()
      modifies this
      ensures Valid() && invalid == old(invalid) && (ok ==> old(vec) != [])
      ensures vec == if ok then old(vec)[..|old(vec)| - 1] else old(vec)
      ensures !invalid ==> (ok <==> old(vec) != [])
    {
      if vec == [] { return false; }
      ok := Erase(|vec| - 1);
    }

    /** Erases the first declaration of that name. */
    method RemoveByName(n: string) returns (ok: bool, found: bool)
      requires Valid()
      modifies this
      ensures Valid() && invalid == old(invalid) && (!invalid ==> ok)
      ensures found ==> exists i | 0 <= i < |old(vec)| ::
        && name(old(vec)[i]) == Some(n) && (forall j | 0 <= j < i :: name(old(vec)[j]) != Some(n))
        && vec == if ok then old(vec)[..i] + old(vec)[i + 1..] else old(vec)
      ensures !found ==> vec == old(vec) && forall i | 0 <= i < |old(vec)| :: name(old(vec)[i]) != Some(n)
    {
      for i := 0 to |vec|
        invariant vec == old(vec) && invalid == old(invalid) && Valid()
        invariant forall j | 0 <= j < i :: name(vec[j]) != Some(n)
      {
        if name(vec[i]) == Some(n) {
          ok := Erase(i);
          return ok, true;
        }
      }
      return true, false;
    }

    method GetDeclaration(n: string) returns (r: Option<T>)
      requires Valid()
      ensures r == if n in declarations then Some(declarations[n]) else None
      ensures !invalid ==> (r.Some? <==> n in Declared(name, vec))
      ensures !invalid && r.Some? ==> r.value in vec && name(r.value) == Some(n)
    {
      assert n in declarations <==> n in multiset(declarations.Keys);
      r := if n in declarations then Some(declarations[n]) else None;
    }

    /** `clear`, which leaves `invalid` as it is. */
    method Clear()
      requires Valid()
      modifies this
      ensures Valid() && vec == [] && declarations == map[] && invalid == old(invalid)
    {
      vec := [];
      declarations := map[];
    }

    /** `es` has taken the place of element `i`, unless the source has given up. */
    twostate predicate Spliced(i: nat, es: seq<T>, ok: bool)
      requires i < |old(vec)|
      reads this
    {
      && Valid() && (!old(invalid) ==> ok)
      && (if ok then
            vec == old(vec)[..i] + es + old(vec)[i + 1..] && (invalid <==> old(invalid) || !Distinct(name, vec))
          else
            vec == old(vec) && invalid == old(invalid))
    }

    method ReplaceOrKeep(i: nat, e: T) returns (ok: bool)
      requires Valid() && i < |vec|
      modifies this
      ensures Spliced(i, [e], ok)
    {
      assert vec[i := e] == vec[..i] + [e] + vec[i + 1..];
      if e == vec[i] {
        if !invalid { ExactIsDistinct(name, vec, declarations); }
        return true;
      }
      ok := Replace(i, e);
    }

    method Drop(i: nat) returns (ok: bool)
      requires Valid() && i < |vec|
      modifies this
      ensures Spliced(i, [], ok)
    {
      assert vec[..i] + [] == vec[..i];
      ok := Erase(i);
      if !invalid { ExactIsDistinct(name, vec, declarations); }
    }

    method Splice(i: nat, es: seq<T>) returns (ok: bool)
      requires Valid() && i < |vec|
      modifies this
      ensures Spliced(i, es, ok)
    {
      ok := Erase(i);
      if ok { Insert(i, es); }
    }

    /** Puts what the visitor returned in place of element `i`. */
    method Place(i: nat, r: Returned<T>) returns (next: nat, ok: bool)
      requires Valid() && i < |vec|
      modifies this
      ensures ok ==> Indexable(r) && next == i + |Replacement(r)|
      ensures if Indexable(r) then Spliced(i, Replacement(r), ok) else !ok && Valid() && vec == old(vec) && invalid == old(invalid)
    {
      next, ok := i, false;
      match r {
        case Nothing =>
          ok := Drop(i);
        case Element(e) =>
          ok := ReplaceOrKeep(i, e);
          next := i + 1;
        case Elements(es) =>
          ok := Splice(i, es);
          next := i + |es|;
        case _ =>
      }
    }

    /** The first `k` elements of `s` have been visited; `was` says if the vector was invalid before. */
    ghost predicate Visiting(v: VisitorOf<T>, s: seq<T>, k: nat, was: bool)
      reads this
    {
      && Valid() && k <= |s| && AllFit(v, s[..k]) && vec == Stage(v, s, k)
      && (if was then invalid else !invalid <==> NeverClashes(name, v, s, k))
    }

    /** One step of the visit. */
    method PlaceNext(ghost v: VisitorOf<T>, ghost s: seq<T>, ghost k: nat, i: nat, r: Returned<T>, ghost was: bool)
      returns (next: nat, ok: bool)
      requires k < |s| && Visiting(v, s, k, was) && i == |FlatMap(v, s[..k])| && r == v(k, s[k])
      modifies this
      ensures ok ==> Visiting(v, s, k + 1, was) && next == |FlatMap(v, s[..k + 1])|
      ensures !ok ==> Visiting(v, s, k, was)
      ensures Valid() && (old(invalid) ==> invalid) && (!old(invalid) ==> ok == Indexable(r))
    {
      assert vec[..i] == FlatMap(v, s[..k]) && vec[i + 1..] == s[k + 1..];
      next, ok := Place(i, r);
      if ok {
        StageNext(v, s, k);
        NeverClashesNext(name, v, s, k);
      }
    }

    /** As for a plain vector. The visit succeeds and leaves an exact index exactly if everything the
        visitor returns is indexable and no name clashes on the way; it stops only at something that
        is not indexable or after a clash, with the elements before in place. */
    method VisitChildren(v: VisitorOf<T>) returns (ok: bool)
      requires Valid()
      modifies this
      ensures Valid()
      ensures ok ==> AllFit(v, old(vec)) && vec == FlatMap(v, old(vec))
      ensures !old(invalid) ==> (ok && !invalid <==> CleanVisit(name, v, old(vec)))
      ensures !ok ==> exists k: nat | k < |old(vec)| ::
                Visiting(v, old(vec), k, old(invalid)) && (!invalid ==> !Indexable(v(k, old(vec)[k])))
    {
      ghost var s := vec;
      ghost var k;
      ok, k := VisitUpTo(v);
      if ok { AllVisited(v, s); } else { CleanSoFar(name, v, s, k); }
    }

    /** The loop of the visit; `k` is how far it gets. */
    method VisitUpTo(v: VisitorOf<T>) returns (ok: bool, ghost k: nat)
      requires Valid()
      modifies this
      ensures Visiting(v, old(vec), k, old(invalid))
      ensures !invalid ==> forall j | 0 <= j < k :: Indexable(v(j, old(vec)[j]))
      ensures if ok then k == |old(vec)| else k < |old(vec)| && (!invalid ==> !Indexable(v(k, old(vec)[k])))
    {
      ghost var s, was := vec, invalid;
      var i, count := 0, 0;
      NothingVisited(name, v, s);
      if !invalid { ExactIsDistinct(name, vec, declarations); }
      while i < |vec|
        invariant Visiting(v, s, count, was) && i == |FlatMap(v, s[..count])|
        invariant !invalid ==> forall j | 0 <= j < count :: Indexable(v(j, s[j]))
        decreases |s| - count
      {
        StageAt(v, s, count);
        var r := v(count, vec[i]);
        i, ok := PlaceNext(v, s, count, i, r, was);
        if !ok { return ok, count; }
        count := count + 1;
      }
      StageAt(v, s, count);
      return true, count;
    }
  }
}
