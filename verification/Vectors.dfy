/** `IR::Vector`: visiting the elements in place, all at once or in two phases. */
module Vectors {
  import opened Wrappers

  /** What a visitor makes of an element. An element of another kind of vector may be of the wrong
      type, as may the node itself. */
  datatype Returned<T> =
    | Nothing
    | Element(element: T)
    | Elements(elements: seq<T>)
    | OtherVector(nodes: seq<Option<T>>)
    | WrongType

  /** The visitor may have state: what it returns may depend on how often it was called before. */
  type VisitorOf<!T> = (nat, T) -> Returned<T>

  predicate Fits<T>(r: Returned<T>) {
    match r
    case OtherVector(nodes) => forall i | 0 <= i < |nodes| :: nodes[i].Some?
    case WrongType => false
    case _ => true
  }

  function Values<T>(nodes: seq<Option<T>>): (r: seq<T>)
    requires forall i | 0 <= i < |nodes| :: nodes[i].Some?
    ensures |r| == |nodes| && forall i | 0 <= i < |nodes| :: r[i] == nodes[i].value
  {
    if nodes == [] then [] else [nodes[0].value] + Values(nodes[1..])
  }

  /** What takes an element's place. */
  function Replacement<T>(r: Returned<T>): seq<T>
    requires Fits(r)
  {
    match r
    case Nothing => []
    case Element(e) => [e]
    case Elements(es) => es
    case OtherVector(nodes) => Values(nodes)
  }

  predicate AllFit<T>(v: VisitorOf<T>, s: seq<T>) {
    forall i | 0 <= i < |s| :: Fits(v(i, s[i]))
  }

  /** Each element in its turn, replaced by what the visitor makes of it. */
  function FlatMap<T>(v: VisitorOf<T>, s: seq<T>): seq<T>
    requires AllFit(v, s)
  {
    if s == [] then []
    else
      var n := |s| - 1;
      FlatMap(v, s[..n]) + Replacement(v(n, s[n]))
  }

  /** The vector when the first `k` elements have been visited. */
  function Stage<T>(v: VisitorOf<T>, s: seq<T>, k: nat): seq<T>
    requires k <= |s| && AllFit(v, s[..k])
  {
    FlatMap(v, s[..k]) + s[k..]
  }

  lemma StageNext<T>(v: VisitorOf<T>, s: seq<T>, k: nat)
    requires k < |s| && AllFit(v, s[..k]) && Fits(v(k, s[k]))
    ensures AllFit(v, s[..k + 1])
    ensures FlatMap(v, s[..k + 1]) == FlatMap(v, s[..k]) + Replacement(v(k, s[k]))
  {
    assert s[..k + 1][..k] == s[..k];
  }

  /** Where the next element to visit is. */
  lemma StageAt<T>(v: VisitorOf<T>, s: seq<T>, k: nat)
    requires k <= |s| && AllFit(v, s[..k])
    ensures |Stage(v, s, k)| == |FlatMap(v, s[..k])| + |s| - k
    ensures k < |s| ==> Stage(v, s, k)[|FlatMap(v, s[..k])|] == s[k]
  {
  }

  /** The first `k` elements of `s` have been visited, and the next is at `i`. */
  ghost predicate Arrived<T>(v: VisitorOf<T>, s: seq<T>, vec: seq<T>, i: nat, k: nat) {
    k <= |s| && AllFit(v, s[..k]) && i == |FlatMap(v, s[..k])| && vec == Stage(v, s, k)
  }

  lemma Departed<T>(v: VisitorOf<T>, s: seq<T>)
    ensures Arrived(v, s, s, 0, 0)
  {
    assert s[..0] == [] && s[0..] == s && [] + s == s;
  }

  lemma ArrivedAt<T>(v: VisitorOf<T>, s: seq<T>, vec: seq<T>, i: nat, k: nat)
    requires Arrived(v, s, vec, i, k)
    ensures i <= |vec| && (i < |vec| <==> k < |s|) && (i < |vec| ==> vec[i] == s[k])
    ensures k == |s| ==> AllFit(v, s) && vec == FlatMap(v, s)
  {
    StageAt(v, s, k);
    if k == |s| { assert s[..k] == s && FlatMap(v, s) + [] == FlatMap(v, s); }
  }

  /** A visitor that leaves everything alone changes nothing. */
  lemma {:induction false} FlatMapOfIdentity<T>(v: VisitorOf<T>, s: seq<T>)
    requires forall i | 0 <= i < |s| :: v(i, s[i]) == Element(s[i])
    ensures AllFit(v, s) && FlatMap(v, s) == s
  {
    if s != [] {
      FlatMapOfIdentity(v, s[..|s| - 1]);
      assert s == s[..|s| - 1] + [s[|s| - 1]];
    }
  }

  /** Nothing is lost, doubled or moved: the result is made of one piece per element, in order. */
  function Offset<T>(v: VisitorOf<T>, s: seq<T>, k: nat): nat
    requires k <= |s| && AllFit(v, s)
  {
    if k == 0 then 0 else Offset(v, s, k - 1) + |Replacement(v(k - 1, s[k - 1]))|
  }

  lemma {:induction false} PieceOfFlatMap<T>(v: VisitorOf<T>, s: seq<T>, k: nat, j: nat)
    requires AllFit(v, s) && k < |s| && j < |Replacement(v(k, s[k]))|
    ensures |FlatMap(v, s)| == Offset(v, s, |s|)
    ensures Offset(v, s, k) + j < |FlatMap(v, s)| && FlatMap(v, s)[Offset(v, s, k) + j] == Replacement(v(k, s[k]))[j]
    decreases |s|
  {
    var n := |s| - 1;
    LengthOfFlatMap(v, s);
    if k < n {
      var before := s[..n];
      assert before[k] == s[k];
      PieceOfFlatMap(v, before, k, j);
      OffsetOfPrefix(v, s, n, k);
      PieceBefore(v, s, Offset(v, before, k) + j);
    } else {
      LastPiece(v, s, j);
    }
  }

  lemma PieceBefore<T>(v: VisitorOf<T>, s: seq<T>, i: nat)
    requires AllFit(v, s) && s != [] && i < |FlatMap(v, s[..|s| - 1])|
    ensures i < |FlatMap(v, s)| && FlatMap(v, s)[i] == FlatMap(v, s[..|s| - 1])[i]
  {
  }

  lemma LastPiece<T>(v: VisitorOf<T>, s: seq<T>, j: nat)
    requires AllFit(v, s) && s != [] && j < |Replacement(v(|s| - 1, s[|s| - 1]))|
    ensures var i := Offset(v, s, |s| - 1) + j;
            i < |FlatMap(v, s)| && FlatMap(v, s)[i] == Replacement(v(|s| - 1, s[|s| - 1]))[j]
  {
    var n := |s| - 1;
    LengthOfFlatMap(v, s[..n]);
    OffsetOfPrefix(v, s, n, n);
  }

  lemma {:induction false} LengthOfFlatMap<T>(v: VisitorOf<T>, s: seq<T>)
    requires AllFit(v, s)
    ensures |FlatMap(v, s)| == Offset(v, s, |s|)
  {
    if s != [] {
      LengthOfFlatMap(v, s[..|s| - 1]);
      OffsetOfPrefix(v, s, |s| - 1, |s| - 1);
    }
  }

  lemma {:induction false} OffsetOfPrefix<T>(v: VisitorOf<T>, s: seq<T>, n: nat, k: nat)
    requires k <= n <= |s| && AllFit(v, s)
    ensures Offset(v, s[..n], k) == Offset(v, s, k)
    decreases k
  {
    if k > 0 { OffsetOfPrefix(v, s, n, k - 1); }
  }

  /** What the visitor returned has `x` as its `j`-th element. */
  predicate Gives<T(==)>(r: Returned<T>, j: nat, x: T) {
    match r
    case Element(e) => j == 0 && x == e
    case Elements(es) => j < |es| && x == es[j]
    case OtherVector(nodes) => j < |nodes| && nodes[j] == Some(x)
    case _ => false
  }

  lemma ReplacementGives<T>(r: Returned<T>, j: nat, x: T)
    requires Fits(r)
    ensures j < |Replacement(r)| && Replacement(r)[j] == x <==> Gives(r, j, x)
  {
  }

  predicate GivesAt<T(==)>(v: VisitorOf<T>, s: seq<T>, k: nat, j: nat, x: T) {
    k < |s| && Gives(v(k, s[k]), j, x)
  }

  /** The result holds what the visitor returned for some element, and nothing else. */
  lemma {:induction false} FlatMapHolds<T(!new)>(v: VisitorOf<T>, s: seq<T>, x: T)
    requires AllFit(v, s)
    ensures x in FlatMap(v, s) <==> exists k: nat, j: nat :: GivesAt(v, s, k, j, x)
  {
    if x in FlatMap(v, s) {
      var n := |s| - 1;
      if x in FlatMap(v, s[..n]) {
        FlatMapHolds(v, s[..n], x);
        var k: nat, j: nat :| GivesAt(v, s[..n], k, j, x);
        assert GivesAt(v, s, k, j, x);
      } else {
        var r := Replacement(v(n, s[n]));
        var j: nat :| j < |r| && r[j] == x;
        ReplacementGives(v(n, s[n]), j, x);
        assert GivesAt(v, s, n, j, x);
      }
    }
    if k: nat, j: nat :| GivesAt(v, s, k, j, x) {
      ReplacementGives(v(k, s[k]), j, x);
      PieceOfFlatMap(v, s, k, j);
    }
  }

  class Vector<T(==)> {
    var vec: seq<T>

    constructor (vec: seq<T>)
      ensures this.vec == vec
    {
      this.vec := vec;
    }

    method Erase(i: nat)
      requires i < |vec|
      modifies this
      ensures vec == old(vec)[..i] + old(vec)[i + 1..]
    {
      vec := vec[..i] + vec[i + 1..];
    }

    method Insert(i: nat, es: seq<T>)
      requires i <= |vec|
      modifies this
      ensures vec == old(vec)[..i] + es + old(vec)[i..]
    {
      vec := vec[..i] + es + vec[i..];
    }

    /** Makes room for all but one of the nodes and writes them over it and the old element; stops
        at one of the wrong type. */
    method Overwrite(i: nat, nodes: seq<Option<T>>) returns (next: nat, ok: bool)
      requires i < |vec|
      modifies this
      ensures ok == Fits(OtherVector(nodes))
      ensures ok ==> next == i + |nodes| && vec == old(vec)[..i] + Values(nodes) + old(vec)[i + 1..]
    {
      next := i;
      ok := true;
      if |nodes| == 0 {
        Erase(i);
        return;
      }
      ghost var after := old(vec)[i + 1..];
      var filler := vec[i];
      Insert(i, seq(|nodes| - 1, _ => filler));
      assert vec[i + |nodes|..] == after;
      for k := 0 to |nodes|
        invariant next == i + k && |vec| == i + |nodes| + |after|
        invariant vec[..i] == old(vec)[..i] && vec[i + |nodes|..] == after
        invariant forall j | 0 <= j < k :: nodes[j].Some? && vec[i + j] == nodes[j].value
      {
        if nodes[k].None? { return i, false; }
        vec := vec[next := nodes[k].value];
        next := next + 1;
      }
      assert vec[i..i + |nodes|] == Values(nodes);
      assert vec == vec[..i] + vec[i..i + |nodes|] + vec[i + |nodes|..];
    }

    /** Puts what the visitor returned in place of element `i`; the next to visit is after it. */
    method Place(i: nat, r: Returned<T>) returns (next: nat, ok: bool)
      requires i < |vec|
      modifies this
      ensures ok == Fits(r)
      ensures ok ==> next == i + |Replacement(r)| && vec == old(vec)[..i] + Replacement(r) + old(vec)[i + 1..]
      ensures match r
              case Nothing => next == i && vec == old(vec)[..i] + old(vec)[i + 1..]
              case Element(e) => next == i + 1 && vec == old(vec)[i := e]
              case Elements(es) => next == i + |es| && vec == old(vec)[..i] + es + old(vec)[i + 1..]
              case OtherVector(nodes) =>
                ok ==> && next == i + |nodes| && |vec| == |old(vec)| - 1 + |nodes|
                       && vec[..i] == old(vec)[..i] && vec[next..] == old(vec)[i + 1..]
                       && forall j | 0 <= j < |nodes| :: nodes[j] == Some(vec[i + j])
              case WrongType => !ok
    {
      ok := true;
      match r {
        case Nothing =>
          Erase(i);
          next := i;
        case Element(e) =>
          if e != vec[i] { vec := vec[i := e]; }
          next := i + 1;
        case Elements(es) =>
          Erase(i);
          Insert(i, es);
          next := i + |es|;
        case OtherVector(nodes) =>
          next, ok := Overwrite(i, nodes);
        case WrongType =>
          next, ok := i, false;
      }
    }

    /** One step of either way to visit: element `k` of `s` is at `i`. */
    method PlaceNext(ghost v: VisitorOf<T>, ghost s: seq<T>, ghost k: nat, i: nat, r: Returned<T>) returns (next: nat, ok: bool)
      requires k < |s| && Arrived(v, s, vec, i, k) && r == v(k, s[k])
      modifies this
      ensures ok == Fits(r)
      ensures ok ==> Arrived(v, s, vec, next, k + 1)
    {
      ArrivedAt(v, s, vec, i, k);
      assert vec[..i] == FlatMap(v, s[..k]) && vec[i + 1..] == s[k + 1..];
      next, ok := Place(i, r);
      if ok { StageNext(v, s, k); }
    }

    /** Visits each original element once, in order, and none that was put in. `ok` is false if the
        visitor returned something of the wrong type. */
    method VisitChildren(v: VisitorOf<T>) returns (ok: bool)
      modifies this
      ensures ok == AllFit(v, old(vec))
      ensures ok ==> vec == FlatMap(v, old(vec))
    {
      ghost var s := vec;
      var i: nat, count: nat := 0, 0;
      Departed(v, s);
      while i < |vec|
        invariant Arrived(v, s, vec, i, count)
        decreases |s| - count
      {
        ArrivedAt(v, s, vec, i, count);
        var r := v(count, vec[i]);
        i, ok := PlaceNext(v, s, count, i, r);
        if !ok { return; }
        count := count + 1;
      }
      ArrivedAt(v, s, vec, i, count);
      ok := true;
    }

    /** `SplitFlowVisitVector`: visits everything first and splices afterwards. */
    method ParallelVisitChildren(v: VisitorOf<T>) returns (ok: bool)
      modifies this
      ensures ok == AllFit(v, old(vec))
      ensures ok ==> vec == FlatMap(v, old(vec))
    {
      ghost var s := vec;
      var result := VisitAll(v);
      var i: nat, idx: nat := 0, 0;
      Departed(v, s);
      while i < |vec|
        invariant Arrived(v, s, vec, i, idx)
        decreases |s| - idx
      {
        ArrivedAt(v, s, vec, i, idx);
        i, ok := PlaceNext(v, s, idx, i, result[idx]);
        if !ok { return; }
        idx := idx + 1;
      }
      ArrivedAt(v, s, vec, i, idx);
      ok := true;
    }

    method VisitAll(v: VisitorOf<T>) returns (result: seq<Returned<T>>)
      ensures |result| == |vec| && forall j | 0 <= j < |vec| :: result[j] == v(j, vec[j])
    {
      result := [];
      for visitNext := 0 to |vec|
        invariant |result| == visitNext
        invariant forall j | 0 <= j < visitNext :: result[j] == v(j, vec[j])
      {
        result := result + [v(visitNext, vec[visitNext])];
      }
    }
  }
}
