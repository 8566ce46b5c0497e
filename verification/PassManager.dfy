/** `PassManager::apply_visitor`: running passes, and going back when one of them asks to. */
module PassManagement {
  import opened Wrappers

  /** What an invocation of a pass does: return a program or null, perhaps asking to stop early
      (`early_exit`, or a new error while stop_on_error is set), or throw a trigger. */
  datatype Outcome<P, T> = Returned(program: Option<P>, stop: bool) | Triggered(trig: T)

  datatype Event<P, T> =
    | Ran(pass: nat, input: P, outcome: Outcome<P, T>)
    | Offered(pass: nat, trig: T, accepted: bool)

  /** Arbitrary passes: what each does may depend on everything that happened before. `backtracks`
      tells the passes that are Backtrack visitors and may catch a trigger. */
  datatype Passes<!P, !T> = Passes(count: nat, backtracks: nat -> bool,
                                   run: (seq<Event<P, T>>, nat, P) -> Outcome<P, T>,
                                   accepts: (seq<Event<P, T>>, nat, T) -> bool)

  datatype Status<P, T> = Running | Finished(result: Option<P>) | Rethrown(trig: T)

  // ---------------------------------------------------------------- reference semantics

  /** The straight-line run so far: `lineage[k]` is the input of pass k, the last one is current. */
  datatype State<P, T> = State(lineage: seq<P>, log: seq<Event<P, T>>, status: Status<P, T>)

  /** Offers a trigger to the passes below `k`, nearest first, until one accepts it. */
  function OfferBelow<P, T>(ps: Passes<P, T>, k: nat, trig: T, log: seq<Event<P, T>>)
    : (r: (seq<Event<P, T>>, Option<nat>))
    ensures log <= r.0
    ensures r.1.Some? ==> r.1.value < k && ps.backtracks(r.1.value)
  {
    if k == 0 then (log, None)
    else if !ps.backtracks(k - 1) then OfferBelow(ps, k - 1, trig, log)
    else
      var accepted := ps.accepts(log, k - 1, trig);
      var log1 := log + [Offered(k - 1, trig, accepted)];
      if accepted then (log1, Some(k - 1)) else OfferBelow(ps, k - 1, trig, log1)
  }

  function Step<P, T>(ps: Passes<P, T>, s: State<P, T>): (r: State<P, T>)
    requires 0 < |s.lineage|
    ensures 0 < |r.lineage| && r.lineage[0] == s.lineage[0] && s.log <= r.log
  {
    var it := |s.lineage| - 1;
    if !s.status.Running? then s
    else if it >= ps.count then s.(status := Finished(Some(s.lineage[it])))
    else
      var outcome := ps.run(s.log, it, s.lineage[it]);
      var log1 := s.log + [Ran(it, s.lineage[it], outcome)];
      match outcome
      case Returned(p, stop) =>
        if stop || p.None? then State(s.lineage, log1, Finished(p))
        else State(s.lineage + [p.value], log1, Running)
      case Triggered(trig) =>
        var (log2, handler) := OfferBelow(ps, it, trig, log1);
        if handler.None? then State(s.lineage, log2, Rethrown(trig))
        else State(s.lineage[..handler.value + 1], log2, Running)
  }

  function Start<P, T>(original: P): State<P, T> {
    State([original], [], Running)
  }

  function Steps<P, T>(ps: Passes<P, T>, s: State<P, T>, n: nat): (r: State<P, T>)
    requires 0 < |s.lineage|
    ensures 0 < |r.lineage| && r.lineage[0] == s.lineage[0] && s.log <= r.log
  {
    if n == 0 then s else Step(ps, Steps(ps, s, n - 1))
  }

  lemma {:induction false} SkipOthers<P, T>(ps: Passes<P, T>, j: nat, k: nat, trig: T, log: seq<Event<P, T>>)
    requires j <= k && forall i: nat | j <= i < k :: !ps.backtracks(i)
    ensures OfferBelow(ps, k, trig, log) == OfferBelow(ps, j, trig, log)
    decreases k
  {
    if j < k { SkipOthers(ps, j, k - 1, trig, log); }
  }

  // ---------------------------------------------------------------- the pass manager

  type Backup<P> = seq<(nat, P)>

  /** No pass strictly between `lo` and `hi` may catch a trigger. */
  ghost predicate NoneBetween<P, T>(ps: Passes<P, T>, lo: int, hi: nat) {
    forall k: nat | lo < k < hi :: !ps.backtracks(k)
  }

  /** From the top down: each entry holds the lineage's input to its pass, and no pass that may catch
      a trigger lies between two entries or above the top one. A pass that was gone back to may have
      several entries. */
  ghost predicate StackOk<P, T>(ps: Passes<P, T>, lineage: seq<P>, backup: Backup<P>, it: nat) {
    it < |lineage| &&
    if backup == [] then NoneBetween(ps, -1, it)
    else
      var top := backup[|backup| - 1];
      && top.0 <= it && NoneBetween(ps, top.0, it)
      && ps.backtracks(top.0) && top.1 == lineage[top.0]
      && StackOk(ps, lineage, backup[..|backup| - 1], top.0)
  }

  lemma PushKeeps<P, T>(ps: Passes<P, T>, lineage: seq<P>, backup: Backup<P>, it: nat)
    requires StackOk(ps, lineage, backup, it) && ps.backtracks(it)
    ensures StackOk(ps, lineage, backup + [(it, lineage[it])], it)
  {
    var more := backup + [(it, lineage[it])];
    assert more[..|more| - 1] == backup;
  }

  /** Only the inputs of passes up to `it` matter. */
  lemma {:induction false} StackOkByPrefix<P, T>(ps: Passes<P, T>, lineage: seq<P>, other: seq<P>, backup: Backup<P>, it: nat)
    requires StackOk(ps, lineage, backup, it) && it < |other| && lineage[..it + 1] == other[..it + 1]
    ensures StackOk(ps, other, backup, it)
    decreases |backup|
  {
    if backup != [] {
      var top := backup[|backup| - 1];
      assert other[top.0] == other[..it + 1][top.0] == lineage[..it + 1][top.0];
      assert lineage[..top.0 + 1] == lineage[..it + 1][..top.0 + 1];
      assert other[..top.0 + 1] == other[..it + 1][..top.0 + 1];
      StackOkByPrefix(ps, lineage, other, backup[..|backup| - 1], top.0);
    }
  }

  lemma NextKeeps<P, T>(ps: Passes<P, T>, lineage: seq<P>, backup: Backup<P>, it: nat, p: P)
    requires |lineage| == it + 1 && StackOk(ps, lineage, backup, it)
    requires ps.backtracks(it) ==> backup != [] && backup[|backup| - 1].0 == it
    ensures StackOk(ps, lineage + [p], backup, it + 1)
  {
    var more := lineage + [p];
    assert more[..it + 1] == lineage[..it + 1];
    StackOkByPrefix(ps, lineage, more, backup, it);
  }

  /** Back at the pass of the top entry. */
  lemma BackKeeps<P, T>(ps: Passes<P, T>, lineage: seq<P>, backup: Backup<P>, it: nat)
    requires backup != [] && StackOk(ps, lineage, backup, it)
    ensures var j := backup[|backup| - 1].0;
            j < |lineage| && StackOk(ps, lineage, backup, j) && StackOk(ps, lineage[..j + 1], backup, j)
  {
    var j := backup[|backup| - 1].0;
    assert lineage[..j + 1][..j + 1] == lineage[..j + 1];
    StackOkByPrefix(ps, lineage, lineage[..j + 1], backup, j);
  }

  /** Every backup entry holds the current lineage's input to its pass. */
  lemma {:induction false} EntriesHoldLineage<P, T>(ps: Passes<P, T>, lineage: seq<P>, backup: Backup<P>, it: nat, i: nat)
    requires StackOk(ps, lineage, backup, it) && i < |backup|
    ensures backup[i].0 <= it && ps.backtracks(backup[i].0) && backup[i].1 == lineage[backup[i].0]
    decreases |backup|
  {
    if i < |backup| - 1 {
      EntriesHoldLineage(ps, lineage, backup[..|backup| - 1], backup[|backup| - 1].0, i);
    }
  }

  class PassManager<P, T> {
    const ps: Passes<P, T>
    var it: nat
    var program: P
    /** Pass index and the program to go back to. */
    var backup: seq<(nat, P)>
    var log: seq<Event<P, T>>
    var status: Status<P, T>
    ghost var lineage: seq<P>

    constructor (ps: Passes<P, T>, original: P)
      ensures this.ps == ps && Valid() && Now() == Start(original)
    {
      this.ps := ps;
      it := 0;
      program := original;
      backup := [];
      log := [];
      status := Running;
      lineage := [original];
    }

    ghost function Now(): State<P, T>
      reads this
    {
      State(lineage, log, status)
    }

    ghost predicate Valid()
      reads this
    {
      status.Running? ==>
        |lineage| == it + 1 && program == lineage[it] && StackOk(ps, lineage, backup, it)
    }

    /** The unwinding loop: pops entries of the pass that failed or refused, and offers the trigger
        to the next. What it offers to whom, and where it stops, is the reference search. */
    method Unwind(trig: T) returns (handled: bool)
      requires |lineage| == it + 1 && StackOk(ps, lineage, backup, it)
      modifies this`it, this`program, this`backup, this`log, this`lineage
      ensures var (log2, handler) := OfferBelow(ps, old(it), trig, old(log));
              && log == log2
              && handled == handler.Some?
              && (handled ==>
                    && it == handler.value && lineage == old(lineage)[..it + 1] && program == lineage[it]
                    && StackOk(ps, lineage, backup, it))
              && (!handled ==> lineage == old(lineage))
    {
      handled := false;
      while backup != []
        invariant lineage == old(lineage) && it <= old(it)
        invariant StackOk(ps, lineage, backup, it)
        invariant OfferBelow(ps, old(it), trig, old(log)) == OfferBelow(ps, it, trig, log)
        decreases |backup|, it
      {
        var top := backup[|backup| - 1];
        if top.0 == it {
          backup := backup[..|backup| - 1];
          continue;
        }
        SkipOthers(ps, top.0 + 1, it, trig, log);
        BackKeeps(ps, lineage, backup, it);
        it := top.0;
        program := top.1;
        var accepted := ps.accepts(log, it, trig);
        log := log + [Offered(it, trig, accepted)];
        if accepted {
          lineage := lineage[..it + 1];
          return true;
        }
      }
      SkipOthers(ps, 0, it, trig, log);
    }

    /** Remembers the program in front of a pass that may catch a trigger. */
    method Push()
      requires Valid() && status.Running?
      modifies this`backup
      ensures Valid() && (ps.backtracks(it) ==> backup != [] && backup[|backup| - 1].0 == it)
    {
      if ps.backtracks(it) {
        PushKeeps(ps, lineage, backup, it);
        backup := backup + [(it, program)];
      }
    }

    /** A pass has returned. */
    method Proceed(p: Option<P>, stop: bool)
      requires Valid() && status.Running?
      requires ps.backtracks(it) ==> backup != [] && backup[|backup| - 1].0 == it
      modifies this`it, this`program, this`lineage, this`status
      ensures Valid()
      ensures if stop || p.None? then Now() == old(Now()).(status := Finished(p))
              else Now() == old(Now()).(lineage := old(lineage) + [p.value])
    {
      if stop || p.None? {
        status := Finished(p);
      } else {
        NextKeeps(ps, lineage, backup, it, p.value);
        program := p.value;
        it := it + 1;
        lineage := lineage + [p.value];
      }
    }

    /** One turn of the loop over the passes, exceptions included. */
    method Turn()
      requires Valid() && status.Running?
      modifies this
      ensures Valid() && Now() == Step(ps, old(Now()))
    {
      if it >= ps.count {
        status := Finished(Some(program));
        return;
      }
      Push();
      var outcome := ps.run(log, it, program);
      log := log + [Ran(it, program, outcome)];
      match outcome {
        case Returned(p, stop) => Proceed(p, stop);
        case Triggered(trig) =>
          var handled := Unwind(trig);
          if !handled {
            status := Rethrown(trig);
          }
      }
    }

    /** `apply_visitor`, for as many turns as `fuel` allows. */
    method ApplyVisitor(fuel: nat)
      requires Valid() && |lineage| > 0
      modifies this
      ensures Valid() && Now() == Steps(ps, old(Now()), fuel)
    {
      for i := 0 to fuel
        invariant Valid() && |lineage| > 0 && Now() == Steps(ps, old(Now()), i)
      {
        if status.Running? {
          Turn();
        }
      }
    }
  }
}
