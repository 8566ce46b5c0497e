/** The ids of a table's match fields, and when the entries converter's ids are the same. */
module FieldIds {
  import opened Wrappers
  import opened Entries

  // ---------------------------------------------------------------- the allocator

  /** The first id from `index` on that is not used. */
  function NextFree(used: set<nat>, index: nat): (r: nat)
    ensures r >= index && r !in used && forall k: nat | index <= k < r :: k in used
    decreases |Above(used, index)|
  {
    if index in used then
      FewerAbove(used, index);
      NextFree(used, index + 1)
    else index
  }

  function Above(used: set<nat>, index: nat): set<nat> {
    set a | a in used && a >= index
  }

  lemma FewerAbove(used: set<nat>, index: nat)
    requires index in used
    ensures |Above(used, index + 1)| < |Above(used, index)|
  {
    assert Above(used, index) == Above(used, index + 1) + {index};
  }

  /** The ids given by annotation, which the first pass of `FieldIdAllocator` uses up. */
  function GivenIds(given: seq<Option<nat>>): set<nat> {
    set k | 0 <= k < |given| && given[k].Some? :: given[k].value
  }

  /** The ids used, and where the next is looked for, when the second pass comes to field `i`. */
  function Progress(given: seq<Option<nat>>, i: nat): (r: (set<nat>, nat))
    requires i <= |given|
    ensures r.1 >= 1 && GivenIds(given) <= r.0
  {
    if i == 0 then (GivenIds(given), 1)
    else
      var (used, index) := Progress(given, i - 1);
      if given[i - 1].Some? then (used, index + 1)
      else
        var id := NextFree(used, index);
        (used + {id}, id)
  }

  /** The id of match field `i`. */
  function MatchFieldId(given: seq<Option<nat>>, i: nat): nat
    requires i < |given|
  {
    if given[i].Some? then given[i].value else NextFree(Progress(given, i).0, Progress(given, i).1)
  }

  /** The second pass gives `id` to a field before `i`. */
  ghost predicate Allocated(given: seq<Option<nat>>, i: nat, id: nat)
    requires i <= |given|
  {
    exists j: nat :: j < i && AllocatedAt(given, j, id)
  }

  predicate AllocatedAt(given: seq<Option<nat>>, j: nat, id: nat)
    requires j < |given|
  {
    given[j].None? && MatchFieldId(given, j) == id
  }

  /** What is used has been given or allocated before. */
  lemma {:induction false} UsedIs(given: seq<Option<nat>>, i: nat, id: nat)
    requires i <= |given|
    ensures id in Progress(given, i).0 <==> id in GivenIds(given) || Allocated(given, i, id)
  {
    if i > 0 {
      UsedIs(given, i - 1, id);
      if Allocated(given, i - 1, id) {
        var j: nat :| j < i - 1 && AllocatedAt(given, j, id);
        assert j < i && AllocatedAt(given, j, id);
      }
      if given[i - 1].None? && MatchFieldId(given, i - 1) == id {
        assert AllocatedAt(given, i - 1, id);
      }
    }
  }

  /** Allocating goes upwards. */
  lemma {:induction false} SearchGoesUp(given: seq<Option<nat>>, j: nat, i: nat)
    requires j < i <= |given| && given[j].None?
    ensures MatchFieldId(given, j) in Progress(given, i).0 && MatchFieldId(given, j) <= Progress(given, i).1
    decreases i
  {
    if j < i - 1 { SearchGoesUp(given, j, i - 1); }
  }

  lemma AllocatedUpwards(given: seq<Option<nat>>, j: nat, i: nat)
    requires j < i < |given| && given[j].None? && given[i].None?
    ensures MatchFieldId(given, j) < MatchFieldId(given, i)
  {
    SearchGoesUp(given, j, i);
  }

  lemma AllocatedIsFree(given: seq<Option<nat>>, i: nat)
    requires i < |given| && given[i].None?
    ensures MatchFieldId(given, i) !in GivenIds(given) && MatchFieldId(given, i) >= Progress(given, i).1 >= 1
  {
  }

  // ---------------------------------------------------------------- the converter's ids

  lemma {:induction false} FieldIdGrows(keys: seq<Key>, i: nat, j: nat)
    requires i <= j <= |keys|
    ensures FieldId(keys, i) <= FieldId(keys, j)
    ensures i < j && keys[i].kind != Unsupported ==> FieldId(keys, i) < FieldId(keys, j)
    decreases j
  {
    if i < j { FieldIdGrows(keys, i, j - 1); }
  }

  /** Every id up to the one reached is that of a supported key. */
  lemma {:induction false} FieldIdHits(keys: seq<Key>, i: nat, id: nat) returns (u: nat)
    requires i <= |keys| && 1 <= id < FieldId(keys, i)
    ensures u < i && keys[u].kind != Unsupported && FieldId(keys, u) == id
  {
    if id < FieldId(keys, i - 1) { u := FieldIdHits(keys, i - 1, id); } else { u := i - 1; }
  }

  // ---------------------------------------------------------------- exactly when both agree

  /** By how much the converter is ahead of the allocator's search. An annotated key moves the search on
      whether it is supported or not; an allocated id leaves it one behind. */
  function Slack(keys: seq<Key>, given: seq<Option<nat>>, i: nat): int
    requires i <= |keys| == |given|
  {
    if i == 0 then 0
    else if keys[i - 1].kind == Unsupported then Slack(keys, given, i - 1) - 1
    else if given[i - 1].Some? then Slack(keys, given, i - 1)
    else 1
  }

  /** The annotation of a supported key is the converter's id. One without annotation has an id that no
      annotation takes; the unsupported keys before it are annotated, and at most one of them stands
      between it and the last supported key without annotation, none if there is no such key. */
  predicate InStep(keys: seq<Key>, given: seq<Option<nat>>, i: nat)
    requires i < |keys| == |given|
  {
    match given[i]
    case Some(id) => id == FieldId(keys, i)
    case None =>
      && FieldId(keys, i) !in GivenIds(given)
      && AnnotatedIfUnsupported(keys, given, i)
      && Slack(keys, given, i) >= 0
  }

  predicate AnnotatedIfUnsupported(keys: seq<Key>, given: seq<Option<nat>>, i: nat)
    requires i <= |keys| == |given|
  {
    forall j | 0 <= j < i && keys[j].kind == Unsupported :: given[j].Some?
  }

  ghost predicate Agree(keys: seq<Key>, given: seq<Option<nat>>, n: nat)
    requires n <= |keys| == |given|
  {
    forall i | 0 <= i < n && keys[i].kind != Unsupported :: FieldId(keys, i) == MatchFieldId(given, i)
  }

  lemma {:induction false} SearchIs(keys: seq<Key>, given: seq<Option<nat>>, i: nat)
    requires i <= |keys| == |given| && Agree(keys, given, i) && AnnotatedIfUnsupported(keys, given, i)
    ensures Progress(given, i).1 == FieldId(keys, i) - Slack(keys, given, i)
  {
    if i > 0 {
      SearchIs(keys, given, i - 1);
      if given[i - 1].None? {
        assert keys[i - 1].kind != Unsupported;
        assert FieldId(keys, i - 1) == MatchFieldId(given, i - 1);
      }
    }
  }

  /** All ids below the converter's next are used. */
  lemma UsedBelow(keys: seq<Key>, given: seq<Option<nat>>, i: nat, id: nat)
    requires i <= |keys| == |given| && Agree(keys, given, i) && 1 <= id < FieldId(keys, i)
    ensures id in Progress(given, i).0
  {
    var u := FieldIdHits(keys, i, id);
    assert FieldId(keys, u) == MatchFieldId(given, u);
    if given[u].None? { SearchGoesUp(given, u, i); }
  }

  /** Its next is not, if no annotation takes it. */
  lemma NextUnused(keys: seq<Key>, given: seq<Option<nat>>, i: nat)
    requires i <= |keys| == |given| && Agree(keys, given, i) && AnnotatedIfUnsupported(keys, given, i)
    requires FieldId(keys, i) !in GivenIds(given)
    ensures FieldId(keys, i) !in Progress(given, i).0
  {
    UsedIs(given, i, FieldId(keys, i));
    forall j: nat | j < i ensures !AllocatedAt(given, j, FieldId(keys, i)) {
      if given[j].None? {
        assert keys[j].kind != Unsupported;
        FieldIdGrows(keys, j, i);
      }
    }
  }

  lemma NextFreeIs(used: set<nat>, index: nat, id: nat)
    requires index <= id && id !in used && forall k: nat | index <= k < id :: k in used
    ensures NextFree(used, index) == id
  {
  }

  lemma {:induction false} InStepAgree(keys: seq<Key>, given: seq<Option<nat>>, n: nat)
    requires n <= |keys| == |given| && forall i | 0 <= i < n && keys[i].kind != Unsupported :: InStep(keys, given, i)
    ensures Agree(keys, given, n)
  {
    if n > 0 {
      InStepAgree(keys, given, n - 1);
      if keys[n - 1].kind != Unsupported && given[n - 1].None? {
        assert InStep(keys, given, n - 1);
        AllocatedInStep(keys, given, n - 1);
      }
    }
  }

  lemma AllocatedInStep(keys: seq<Key>, given: seq<Option<nat>>, i: nat)
    requires i < |keys| == |given| && given[i].None? && Agree(keys, given, i) && InStep(keys, given, i)
    ensures MatchFieldId(given, i) == FieldId(keys, i)
  {
    var (used, index) := Progress(given, i);
    SearchIs(keys, given, i);
    NextUnused(keys, given, i);
    forall k: nat | index <= k < FieldId(keys, i) ensures k in used {
      UsedBelow(keys, given, i, k);
    }
    NextFreeIs(used, index, FieldId(keys, i));
  }

  lemma AgreeInStep(keys: seq<Key>, given: seq<Option<nat>>, i: nat)
    requires i < |keys| == |given| && keys[i].kind != Unsupported && Agree(keys, given, |keys|)
    ensures InStep(keys, given, i)
  {
    assert FieldId(keys, i) == MatchFieldId(given, i);
    if given[i].None? {
      AllocatedIsFree(given, i);
      forall j | 0 <= j < i && keys[j].kind == Unsupported ensures given[j].Some? {
        if given[j].None? { NeverAgree(keys, given, j, i); }
      }
      SearchIs(keys, given, i);
    }
  }

  /** An unsupported key without annotation takes an id that the converter gives to another key. */
  lemma NeverAgree(keys: seq<Key>, given: seq<Option<nat>>, j: nat, i: nat)
    requires j < i < |keys| == |given| && keys[j].kind == Unsupported && given[j].None?
    requires keys[i].kind != Unsupported && given[i].None?
    ensures !Agree(keys, given, |keys|)
  {
    var id := MatchFieldId(given, j);
    AllocatedUpwards(given, j, i);
    AllocatedIsFree(given, j);
    if FieldId(keys, i) == MatchFieldId(given, i) {
      var u := FieldIdHits(keys, i, id);
      if given[u].None? { AllocatedOnce(given, u, j); }
      assert FieldId(keys, u) != MatchFieldId(given, u);
    }
  }

  lemma AllocatedOnce(given: seq<Option<nat>>, p: nat, q: nat)
    requires p < |given| && q < |given| && p != q && given[p].None? && given[q].None?
    ensures MatchFieldId(given, p) != MatchFieldId(given, q)
  {
    if p < q { AllocatedUpwards(given, p, q); } else { AllocatedUpwards(given, q, p); }
  }

  /** The ids of the emitted matches are those of the table's match fields exactly if every supported key
      is in step; this looks at the kinds and the annotations of the keys only. */
  lemma IdsAgreeExactly(keys: seq<Key>, given: seq<Option<nat>>)
    requires |keys| == |given|
    ensures (forall i | 0 <= i < |keys| && keys[i].kind != Unsupported :: FieldId(keys, i) == MatchFieldId(given, i)) <==>
            (forall i | 0 <= i < |keys| && keys[i].kind != Unsupported :: InStep(keys, given, i))
  {
    if Agree(keys, given, |keys|) {
      forall i | 0 <= i < |keys| && keys[i].kind != Unsupported ensures InStep(keys, given, i) {
        AgreeInStep(keys, given, i);
      }
    }
    if forall i | 0 <= i < |keys| && keys[i].kind != Unsupported :: InStep(keys, given, i) {
      InStepAgree(keys, given, |keys|);
    }
  }

  function NoAnnotations(n: nat): (r: seq<Option<nat>>)
    ensures |r| == n && forall i | 0 <= i < n :: r[i] == None
  {
    seq(n, _ => None)
  }

  /** Without annotations the ids count the keys from 1. */
  lemma MatchFieldIdsAreInOrder(n: nat, i: nat)
    requires i < n
    ensures MatchFieldId(NoAnnotations(n), i) == i + 1
  {
    var keys: seq<Key> := seq(n, _ => Key(Exact, 0));
    SupportedInStep(keys, n);
    InStepAgree(keys, NoAnnotations(n), n);
    CountsAll(keys, i);
    assert FieldId(keys, i) == MatchFieldId(NoAnnotations(n), i);
  }

  lemma SupportedInStep(keys: seq<Key>, n: nat)
    requires |keys| == n && forall j | 0 <= j < n :: keys[j].kind != Unsupported
    ensures forall j | 0 <= j < n :: InStep(keys, NoAnnotations(n), j)
  {
    assert GivenIds(NoAnnotations(n)) == {};
    forall j | 0 <= j < n ensures InStep(keys, NoAnnotations(n), j) {
      NeverBehind(keys, NoAnnotations(n), j);
    }
  }

  lemma {:induction false} NeverBehind(keys: seq<Key>, given: seq<Option<nat>>, i: nat)
    requires i <= |keys| == |given| && forall j | 0 <= j < i :: keys[j].kind != Unsupported
    ensures Slack(keys, given, i) >= 0
  {
    if i > 0 { NeverBehind(keys, given, i - 1); }
  }

  lemma {:induction false} CountsAll(keys: seq<Key>, i: nat)
    requires i <= |keys| && forall j | 0 <= j < i :: keys[j].kind != Unsupported
    ensures FieldId(keys, i) == i + 1
  {
    if i > 0 { CountsAll(keys, i - 1); }
  }
}
