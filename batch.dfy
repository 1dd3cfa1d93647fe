/** The outer loop of main.c: request `idx` takes fixture `idx % 3`, gets a
    fresh easy handle, which releases the previous one, is attached to the
    multi session, driven until its transfer is done, and detached; the last
    handle is released after the loop. The engine itself is not modelled:
    what it does to one transfer is reduced to "done" or "the run aborts". */
module Batch {
  import opened Fixtures

  /** Creation ordinal of an easy handle: the `n`-th `curl_easy_init` of the
      run returns handle `n`. */
  type Handle = nat

  /** What the loop does to easy handles, in order. */
  datatype Event =
    | Init(h: Handle)                  // curl_easy_init
    | Add(h: Handle, fixture: nat)     // configured for `requests[fixture]` and attached to the multi session
    | Remove(h: Handle)                // curl_multi_remove_handle after CURLMSG_DONE
    | Cleanup(h: Handle)               // curl_easy_cleanup

  /** Where the run stops early. Each early return leaves main through a
      failing CURL_CALL or CURLM_CALL, or the check after
      curl_multi_perform. */
  datatype Fault =
    | NoFault
    | PipeliningFails           // setting CURLMOPT_PIPELINING
    | SetupFails(at: nat)       // an option or curl_multi_add_handle for request `at`
    | EngineFails(at: nat)      // curl_multi_fdset, _timeout, _perform or easy_getinfo for request `at`

  datatype RunResult = Completed | Aborted

  datatype Option<T> = None | Some(value: T)

  /** The fault stops the loop in one of the iterations 0 .. n - 1. */
  predicate FiresBefore(fault: Fault, n: nat) {
    (fault.SetupFails? || fault.EngineFails?) && fault.at < n
  }

  /** The run of `max` requests returns early. */
  predicate Aborts(max: nat, fault: Fault) {
    fault.PipeliningFails? || FiresBefore(fault, max)
  }

  /** The events of iteration `idx`: it creates handle `idx`, then releases
      its predecessor, then attaches and detaches the new handle as far as
      the fault lets it (`IterationAttachesAndDetaches`). */
  function IterationTrace(idx: nat, fault: Fault): seq<Event> {
    [Init(idx)]
    + (if idx == 0 then [] else [Cleanup(idx - 1)])
    + (if fault == SetupFails(idx) then []
       else [Add(idx, FixtureIndex(idx))] + (if fault == EngineFails(idx) then [] else [Remove(idx)]))
  }

  /** Iteration `idx` attaches its handle, configured for fixture
      `idx % 3`, exactly when its setup succeeds, and detaches it exactly
      when neither its setup nor the engine fails. */
  lemma IterationAttachesAndDetaches(idx: nat, fault: Fault)
    ensures Add(idx, FixtureIndex(idx)) in IterationTrace(idx, fault) <==> fault != SetupFails(idx)
    ensures Remove(idx) in IterationTrace(idx, fault) <==> fault != SetupFails(idx) && fault != EngineFails(idx)
  {
  }

  /** Every attach event of iteration `idx` attaches handle `idx`,
      configured for fixture `idx % 3`. */
  lemma IterationAttachesOnlyItsHandle(idx: nat, fault: Fault, i: nat)
    requires i < |IterationTrace(idx, fault)| && IterationTrace(idx, fault)[i].Add?
    ensures IterationTrace(idx, fault)[i] == Add(idx, FixtureIndex(idx))
  {
  }

  /** The events of iterations 0 .. n - 1. */
  function LoopTrace(n: nat, fault: Fault): seq<Event> {
    if n == 0 then [] else LoopTrace(n - 1, fault) + IterationTrace(n - 1, fault)
  }

  /** The events of a whole run of `max` requests. */
  function RunTrace(max: nat, fault: Fault): seq<Event> {
    if fault.PipeliningFails? then []
    else if FiresBefore(fault, max) then LoopTrace(fault.at + 1, fault)
    else LoopTrace(max, fault) + (if max == 0 then [] else [Cleanup(max - 1)])
  }

  /** main, from `curl_multi_setopt` to the final cleanup. Driving one
      transfer to CURLMSG_DONE is the engine's business: it either
      finishes, successfully or not (both take the same path), or fails. */
  method RunBatch(max: nat, fault: Fault) returns (result: RunResult, trace: seq<Event>)
    ensures result == if Aborts(max, fault) then Aborted else Completed
    ensures trace == RunTrace(max, fault)
  {
    trace := [];
    if fault == PipeliningFails {
      return Aborted, trace;
    }
    var next: Handle := 0;
    var last: Option<Handle> := None;
    for idx := 0 to max
      invariant !FiresBefore(fault, idx)
      invariant trace == LoopTrace(idx, fault)
      invariant next == idx
      invariant last == if idx == 0 then None else Some(idx - 1)
    {
      var fixture := FixtureIndex(idx);
      var easy := next;
      next := next + 1;
      var step := [Init(easy)];
      if last.Some? {
        step := step + [Cleanup(last.value)];
      }
      last := Some(easy);
      if fault == SetupFails(idx) {
        assert step == IterationTrace(idx, fault);
        return Aborted, trace + step;
      }
      step := step + [Add(easy, fixture)];
      if fault == EngineFails(idx) {
        assert step == IterationTrace(idx, fault);
        return Aborted, trace + step;
      }
      step := step + [Remove(easy)];
      assert step == IterationTrace(idx, fault);
      trace := trace + step;
    }
    if last.Some? {
      trace := trace + [Cleanup(last.value)];
    }
    return Completed, trace;
  }

  /** A fault in an iteration the run never reaches changes nothing. */
  lemma {:induction false} LateFaultIsHarmless(max: nat, fault: Fault)
    requires !fault.PipeliningFails? && !FiresBefore(fault, max)
    ensures RunTrace(max, fault) == RunTrace(max, NoFault)
  {
    LoopTraceUntilFault(max, fault);
  }

  lemma {:induction false} LoopTraceUntilFault(n: nat, fault: Fault)
    requires !FiresBefore(fault, n)
    ensures LoopTrace(n, fault) == LoopTrace(n, NoFault)
  {
    if n > 0 {
      LoopTraceUntilFault(n - 1, fault);
    }
  }

  // ---------------------------------------------------------------------
  // Handle discipline: the rules every use of an easy handle must obey.

  /** The handles created and not yet released, the one attached to the
      multi session (if any), and how many have been created. */
  datatype Handles = Handles(live: set<Handle>, attached: Option<Handle>, created: nat)

  const NoHandles: Handles := Handles({}, None, 0)

  /** One event; None when it breaks a rule: a handle is created in order,
      attached only while live and while no other transfer is attached,
      detached only while attached, and released only while live and not
      attached. */
  function Step(s: Handles, e: Event): Option<Handles> {
    match e
    case Init(h) =>
      if h == s.created then Some(Handles(s.live + {h}, s.attached, s.created + 1)) else None
    case Add(h, _) =>
      if h in s.live && s.attached == None then Some(s.(attached := Some(h))) else None
    case Remove(h) =>
      if s.attached == Some(h) then Some(s.(attached := None)) else None
    case Cleanup(h) =>
      if h in s.live && s.attached != Some(h) then Some(s.(live := s.live - {h})) else None
  }

  /** The state after a trace, or None if some event of it breaks a rule. */
  function Replay(s: Handles, t: seq<Event>): Option<Handles>
    decreases t
  {
    if t == [] then Some(s)
    else match Step(s, t[0])
      case None => None
      case Some(s') => Replay(s', t[1..])
  }

  /** Replaying `a + b` from `s` is replaying `b` from wherever `a` leads. */
  lemma {:induction false} ReplayThen(s: Handles, a: seq<Event>, s': Handles, b: seq<Event>)
    requires Replay(s, a) == Some(s')
    ensures Replay(s, a + b) == Replay(s', b)
    decreases a
  {
    if a != [] {
      assert (a + b)[0] == a[0] && (a + b)[1..] == a[1..] + b;
      ReplayThen(Step(s, a[0]).value, a[1..], s', b);
    } else {
      assert a + b == b;
    }
  }

  /** The handles after `n` undisturbed iterations: just the last one,
      live and detached. */
  function AfterIterations(n: nat): Handles {
    if n == 0 then NoHandles else Handles({n - 1}, None, n)
  }

  /** The handles after iteration `idx`, started from `AfterIterations(idx)`. */
  function AfterIteration(idx: nat, fault: Fault): Handles {
    if fault == SetupFails(idx) then Handles({idx}, None, idx + 1)
    else if fault == EngineFails(idx) then Handles({idx}, Some(idx), idx + 1)
    else AfterIterations(idx + 1)
  }

  lemma ReplayCons(s: Handles, e: Event, t: seq<Event>, s': Handles)
    requires Step(s, e) == Some(s')
    ensures Replay(s, [e] + t) == Replay(s', t)
  {
    assert ([e] + t)[0] == e && ([e] + t)[1..] == t;
  }

  lemma IterationObeysDiscipline(idx: nat, fault: Fault)
    ensures Replay(AfterIterations(idx), IterationTrace(idx, fault)) == Some(AfterIteration(idx, fault))
  {
    var s0 := AfterIterations(idx);
    var s1 := Handles(s0.live + {idx}, None, idx + 1);
    var s2 := Handles({idx}, None, idx + 1);
    var s3 := Handles({idx}, Some(idx), idx + 1);
    var add := if fault == SetupFails(idx) then [] else [Add(idx, FixtureIndex(idx))];
    var remove := if fault == SetupFails(idx) || fault == EngineFails(idx) then [] else [Remove(idx)];
    var body := add + remove;
    assert Replay(s2, body) == Some(AfterIteration(idx, fault)) by {
      if add != [] {
        ReplayCons(s2, add[0], remove, s3);
        assert body == [add[0]] + remove;
        if remove != [] {
          ReplayCons(s3, Remove(idx), [], s2);
          assert remove == [Remove(idx)] + [];
        }
      } else {
        assert body == [];
      }
    }
    if idx == 0 {
      assert s0.live + {idx} == {idx};
      assert IterationTrace(idx, fault) == [Init(idx)] + body;
      ReplayCons(s0, Init(idx), body, s2);
    } else {
      assert s0.live + {idx} - {idx - 1} == {idx};
      assert IterationTrace(idx, fault) == [Init(idx)] + ([Cleanup(idx - 1)] + body);
      ReplayCons(s0, Init(idx), [Cleanup(idx - 1)] + body, s1);
      ReplayCons(s1, Cleanup(idx - 1), body, s2);
    }
  }

  lemma {:induction false} LoopObeysDiscipline(n: nat, fault: Fault)
    requires !FiresBefore(fault, n)
    ensures Replay(NoHandles, LoopTrace(n, fault)) == Some(AfterIterations(n))
  {
    if n > 0 {
      var done, step := LoopTrace(n - 1, fault), IterationTrace(n - 1, fault);
      assert LoopTrace(n, fault) == done + step;
      LoopObeysDiscipline(n - 1, fault);
      ReplayThen(NoHandles, done, AfterIterations(n - 1), step);
      IterationObeysDiscipline(n - 1, fault);
      assert AfterIteration(n - 1, fault) == AfterIterations(n);
    }
  }

  /** The handles at the end of a run. */
  function FinalHandles(max: nat, fault: Fault): Handles {
    if fault.PipeliningFails? then NoHandles
    else if FiresBefore(fault, max) then
      Handles({fault.at}, if fault.SetupFails? then None else Some(fault.at), fault.at + 1)
    else Handles({}, None, max)
  }

  /** Every run obeys the handle discipline: handles are created in order,
      never used or released after release, never released while attached,
      and at most one transfer is attached at a time. A completed run ends
      with every handle released and none attached; an aborted run leaves
      exactly the current handle unreleased (attached as well when the
      engine failed). */
  lemma RunObeysDiscipline(max: nat, fault: Fault)
    ensures Replay(NoHandles, RunTrace(max, fault)) == Some(FinalHandles(max, fault))
  {
    if fault.PipeliningFails? {
    } else if FiresBefore(fault, max) {
      AbortedRunDiscipline(max, fault);
    } else {
      CompletedRunDiscipline(max, fault);
    }
  }

  lemma AbortedRunDiscipline(max: nat, fault: Fault)
    requires FiresBefore(fault, max)
    ensures Replay(NoHandles, RunTrace(max, fault)) == Some(FinalHandles(max, fault))
  {
    var k := fault.at;
    var done, step := LoopTrace(k, fault), IterationTrace(k, fault);
    assert RunTrace(max, fault) == done + step;
    LoopObeysDiscipline(k, fault);
    ReplayThen(NoHandles, done, AfterIterations(k), step);
    IterationObeysDiscipline(k, fault);
  }

  lemma CompletedRunDiscipline(max: nat, fault: Fault)
    requires !fault.PipeliningFails? && !FiresBefore(fault, max)
    ensures Replay(NoHandles, RunTrace(max, fault)) == Some(FinalHandles(max, fault))
  {
    LoopObeysDiscipline(max, fault);
    if max > 0 {
      var final := Handles({}, None, max);
      assert {max - 1} - {max - 1} == {};
      ReplayCons(AfterIterations(max), Cleanup(max - 1), [], final);
      assert [Cleanup(max - 1)] == [Cleanup(max - 1)] + [];
      ReplayThen(NoHandles, LoopTrace(max, fault), AfterIterations(max), [Cleanup(max - 1)]);
    }
  }

  // ---------------------------------------------------------------------
  // Which handles are released, and which fixtures are requested.

  /** The handles released by a trace, in order. */
  function Released(t: seq<Event>): seq<Handle> {
    if t == [] then []
    else (if t[0].Cleanup? then [t[0].h] else []) + Released(t[1..])
  }

  /** The fixture indices requested by a trace, in order. */
  function Requested(t: seq<Event>): seq<nat> {
    if t == [] then []
    else (if t[0].Add? then [t[0].fixture] else []) + Requested(t[1..])
  }

  lemma {:induction false} ReleasedAppend(a: seq<Event>, b: seq<Event>)
    ensures Released(a + b) == Released(a) + Released(b)
  {
    if a != [] {
      assert (a + b)[0] == a[0] && (a + b)[1..] == a[1..] + b;
      ReleasedAppend(a[1..], b);
    } else {
      assert a + b == b;
    }
  }

  lemma {:induction false} RequestedAppend(a: seq<Event>, b: seq<Event>)
    ensures Requested(a + b) == Requested(a) + Requested(b)
  {
    if a != [] {
      assert (a + b)[0] == a[0] && (a + b)[1..] == a[1..] + b;
      RequestedAppend(a[1..], b);
    } else {
      assert a + b == b;
    }
  }

  /** The handles 0 .. n - 1 in creation order. */
  function Upto(n: nat): (s: seq<Handle>)
    ensures |s| == n
  {
    if n == 0 then [] else Upto(n - 1) + [n - 1]
  }

  lemma {:induction false} UptoAt(n: nat, i: nat)
    requires i < n
    ensures Upto(n)[i] == i
  {
    if i < n - 1 {
      UptoAt(n - 1, i);
    }
  }

  lemma ReleasedOne(e: Event)
    ensures Released([e]) == if e.Cleanup? then [e.h] else []
  {
    assert [e][0] == e && [e][1..] == [];
  }

  lemma RequestedOne(e: Event)
    ensures Requested([e]) == if e.Add? then [e.fixture] else []
  {
    assert [e][0] == e && [e][1..] == [];
  }

  /** The events of iteration `idx` in three parts: creating its handle and
      releasing the previous one, attaching, and detaching. */
  lemma IterationParts(idx: nat, fault: Fault)
    ensures IterationTrace(idx, fault) ==
      ([Init(idx)] + (if idx == 0 then [] else [Cleanup(idx - 1)]))
      + ((if fault == SetupFails(idx) then [] else [Add(idx, FixtureIndex(idx))])
         + (if fault == SetupFails(idx) || fault == EngineFails(idx) then [] else [Remove(idx)]))
  {
  }

  /** Iteration `idx` releases the previous handle and no other. */
  lemma IterationReleases(idx: nat, fault: Fault)
    ensures Released(IterationTrace(idx, fault)) == if idx == 0 then [] else [idx - 1]
  {
    var opening := [Init(idx)] + (if idx == 0 then [] else [Cleanup(idx - 1)]);
    var add := if fault == SetupFails(idx) then [] else [Add(idx, FixtureIndex(idx))];
    var remove := if fault == SetupFails(idx) || fault == EngineFails(idx) then [] else [Remove(idx)];
    IterationParts(idx, fault);
    ReleasedAppend(opening, add + remove);
    ReleasedAppend(add, remove);
    ReleasedOne(Init(idx));
    if idx > 0 {
      ReleasedAppend([Init(idx)], [Cleanup(idx - 1)]);
      ReleasedOne(Cleanup(idx - 1));
    } else {
      assert opening == [Init(idx)];
    }
    if add != [] {
      ReleasedOne(add[0]);
    }
    if remove != [] {
      ReleasedOne(Remove(idx));
    }
  }

  /** Iteration `idx` requests its fixture, unless its setup fails. */
  lemma IterationRequests(idx: nat, fault: Fault)
    ensures Requested(IterationTrace(idx, fault)) ==
      if fault == SetupFails(idx) then [] else [FixtureIndex(idx)]
  {
    var opening := [Init(idx)] + (if idx == 0 then [] else [Cleanup(idx - 1)]);
    var add := if fault == SetupFails(idx) then [] else [Add(idx, FixtureIndex(idx))];
    var remove := if fault == SetupFails(idx) || fault == EngineFails(idx) then [] else [Remove(idx)];
    IterationParts(idx, fault);
    RequestedAppend(opening, add + remove);
    RequestedAppend(add, remove);
    RequestedOne(Init(idx));
    if idx > 0 {
      RequestedAppend([Init(idx)], [Cleanup(idx - 1)]);
      RequestedOne(Cleanup(idx - 1));
    } else {
      assert opening == [Init(idx)];
    }
    if add != [] {
      RequestedOne(add[0]);
    }
    if remove != [] {
      RequestedOne(Remove(idx));
    }
  }

  lemma {:induction false} LoopReleases(n: nat, fault: Fault)
    requires !FiresBefore(fault, n)
    ensures Released(LoopTrace(n, fault)) == if n == 0 then [] else Upto(n - 1)
  {
    if n > 0 {
      var done, step := LoopTrace(n - 1, fault), IterationTrace(n - 1, fault);
      assert LoopTrace(n, fault) == done + step;
      LoopReleases(n - 1, fault);
      ReleasedAppend(done, step);
      IterationReleases(n - 1, fault);
    }
  }

  /** In a completed run every one of the `max` handles is released exactly
      once, in creation order: handle k as handle k + 1 is created, the last
      one after the loop. */
  lemma CompletedRunReleasesEachOnce(max: nat)
    ensures Released(RunTrace(max, NoFault)) == Upto(max)
    ensures forall i, j :: 0 <= i < j < |Released(RunTrace(max, NoFault))| ==>
      Released(RunTrace(max, NoFault))[i] != Released(RunTrace(max, NoFault))[j]
  {
    LoopReleases(max, NoFault);
    if max > 0 {
      ReleasedAppend(LoopTrace(max, NoFault), [Cleanup(max - 1)]);
      ReleasedOne(Cleanup(max - 1));
    }
    forall i, j | 0 <= i < j < max ensures Upto(max)[i] != Upto(max)[j] {
      UptoAt(max, i);
      UptoAt(max, j);
    }
  }

  /** A run aborted in iteration k has released handles 0 .. k - 1 and never
      releases handle k. */
  lemma AbortedRunLeaksCurrentHandle(max: nat, fault: Fault)
    requires FiresBefore(fault, max)
    ensures Released(RunTrace(max, fault)) == Upto(fault.at)
  {
    var k := fault.at;
    assert RunTrace(max, fault) == LoopTrace(k, fault) + IterationTrace(k, fault);
    LoopReleases(k, fault);
    ReleasedAppend(LoopTrace(k, fault), IterationTrace(k, fault));
    IterationReleases(k, fault);
  }

  lemma {:induction false} LoopRequests(n: nat)
    ensures Requested(LoopTrace(n, NoFault)) == Schedule(n)
  {
    if n > 0 {
      var done, step := LoopTrace(n - 1, NoFault), IterationTrace(n - 1, NoFault);
      assert LoopTrace(n, NoFault) == done + step;
      LoopRequests(n - 1);
      RequestedAppend(done, step);
      IterationRequests(n - 1, NoFault);
    }
  }

  /** A completed run requests the fixtures `requests[idx % 3]` for
      idx = 0 .. max - 1, in order. */
  lemma CompletedRunFollowsSchedule(max: nat)
    ensures Requested(RunTrace(max, NoFault)) == Schedule(max)
  {
    LoopRequests(max);
    if max > 0 {
      RequestedAppend(LoopTrace(max, NoFault), [Cleanup(max - 1)]);
      RequestedOne(Cleanup(max - 1));
    }
  }
}
