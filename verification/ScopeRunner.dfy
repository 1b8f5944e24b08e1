/** `ScopeRunner`: a gate that any number of threads enter, leave and close without locking.
    The threads take turns in steps of one access to the atomic count each. */
module ScopeRunners {

  // Every call of `continue_lock` or `stop` has an identity, which is free again when the call is
  // over and its lock, if it got one, is released. One thread can thus hold several locks.
  type Id = nat

  datatype Phase =
    | Trying(expected: int)      // in the loop of continue_lock
    | Holding                    // continue_lock has counted its lock, which is live
    | Refused                    // continue_lock has returned null
    | Released                   // the destructor of the lock has given it back
    | Stopping                   // in the loop of stop, about to exchange 0 for -1
    | StopFailed(expected: int)  // in the loop of stop, after a failed exchange
    | Stopped                    // stop has returned

  datatype State = State(count: int, calls: map<Id, Phase>)

  const INITIAL := State(0, map[])

  // ----- Specification -----

  // `spurious` is whether compare_exchange_weak fails although it finds what it expects.
  datatype Action =
    | Load(id: Id)
    | Try(id: Id, spurious: bool)
    | Release(id: Id)
    | Stop(id: Id)
    | StopTry(id: Id, spurious: bool)
    | StopTest(id: Id)

  predicate Idle(s: State, id: Id) {
    id in s.calls ==> s.calls[id].Refused? || s.calls[id].Released? || s.calls[id].Stopped?
  }

  predicate Enabled(s: State, a: Action) {
    match a
    case Load(id) => Idle(s, id)
    case Try(id, _) => id in s.calls && s.calls[id].Trying?
    case Release(id) => id in s.calls && s.calls[id].Holding?
    case Stop(id) => Idle(s, id)
    case StopTry(id, _) => id in s.calls && s.calls[id].Stopping?
    case StopTest(id) => id in s.calls && s.calls[id].StopFailed?
  }

  function Perform(s: State, a: Action): State
    requires Enabled(s, a)
  {
    match a
    case Load(id) => s.(calls := s.calls[id := Trying(s.count)])
    case Try(id, spurious) =>
      var expected := s.calls[id].expected;
      if expected < 0 then s.(calls := s.calls[id := Refused])
      else if s.count == expected && !spurious then State(s.count + 1, s.calls[id := Holding])
      else s.(calls := s.calls[id := Trying(s.count)])
    case Release(id) => State(s.count - 1, s.calls[id := Released])
    case Stop(id) => s.(calls := s.calls[id := Stopping])
    case StopTry(id, spurious) =>
      if s.count == 0 && !spurious then State(-1, s.calls[id := Stopped])
      else s.(calls := s.calls[id := StopFailed(s.count)])
    case StopTest(id) =>
      s.(calls := s.calls[id := if s.calls[id].expected < 0 then Stopped else Stopping])
  }

  // A run is a list of actions: the schedule decides who acts, and which exchanges fail spuriously.
  ghost predicate ValidRun(s: State, actions: seq<Action>)
    decreases |actions|
  {
    actions == [] || (Enabled(s, actions[0]) && ValidRun(Perform(s, actions[0]), actions[1..]))
  }

  ghost function Run(s: State, actions: seq<Action>): State
    requires ValidRun(s, actions)
    decreases |actions|
  {
    if actions == [] then s else Run(Perform(s, actions[0]), actions[1..])
  }

  ghost predicate Reachable(s: State) {
    exists actions :: ValidRun(INITIAL, actions) && Run(INITIAL, actions) == s
  }

  // The calls whose lock is live: counted and not yet given back.
  function Live(s: State): set<Id> {
    set id | id in s.calls && s.calls[id].Holding?
  }

  // ----- The code -----

  class ScopeRunner {
    var count: int
    var calls: map<Id, Phase>

    ghost predicate Valid()
      reads this
    {
      Invariant(Snapshot())
    }

    constructor ()
      ensures Valid() && Snapshot() == INITIAL
    {
      count, calls := 0, map[];
      new;
      assert Live(Snapshot()) == {};
    }

    ghost function Snapshot(): State
      reads this
    {
      State(count, calls)
    }

    // The atomic operation: actual is what `expected` holds afterwards.
    method CompareExchangeWeak(expected: int, desired: int, spurious: bool) returns (exchanged: bool, actual: int)
      modifies this`count
      ensures exchanged == (old(count) == expected && !spurious)
      ensures count == if exchanged then desired else old(count)
      ensures actual == old(count)
    {
      actual := count;
      exchanged := count == expected && !spurious;
      if exchanged {
        count := desired;
      }
    }

    // continue_lock up to its loop.
    method ContinueLock(id: Id)
      requires Valid() && Enabled(Snapshot(), Load(id))
      modifies this
      ensures Valid() && Snapshot() == Perform(old(Snapshot()), Load(id))
      ensures count == old(count) && Live(Snapshot()) == old(Live(Snapshot()))
    {
      StepKeepsInvariant(Snapshot(), Load(id));
      LiveAfterStep(Snapshot(), Load(id));
      calls := calls[id := Trying(count)];
    }

    // The loop condition of continue_lock once, and its return if that ends the loop.
    method ContinueLockTry(id: Id, spurious: bool)
      requires Valid() && Enabled(Snapshot(), Try(id, spurious))
      modifies this
      ensures Valid() && Snapshot() == Perform(old(Snapshot()), Try(id, spurious))
      ensures calls[id].Holding? ==> old(count) != -1 && Live(Snapshot()) == old(Live(Snapshot())) + {id}
      ensures !calls[id].Holding? ==> count == old(count) && Live(Snapshot()) == old(Live(Snapshot()))
      ensures calls[id].Refused? ==> count == -1
    {
      StepKeepsInvariant(Snapshot(), Try(id, spurious));
      LiveAfterStep(Snapshot(), Try(id, spurious));
      var expected := calls[id].expected;
      if expected >= 0 {
        var exchanged, actual := CompareExchangeWeak(expected, expected + 1, spurious);
        if !exchanged {
          calls := calls[id := Trying(actual)];
          return;
        }
      }
      calls := calls[id := if expected < 0 then Refused else Holding];
    }

    // The destructor of a lock.
    method ReleaseLock(id: Id)
      requires Valid() && Enabled(Snapshot(), Release(id))
      modifies this
      ensures Valid() && Snapshot() == Perform(old(Snapshot()), Release(id))
      ensures count >= 0 && Live(Snapshot()) == old(Live(Snapshot())) - {id}
    {
      StepKeepsInvariant(Snapshot(), Release(id));
      LiveAfterStep(Snapshot(), Release(id));
      count := count - 1;
      calls := calls[id := Released];
    }

    // stop up to its loop.
    method BeginStop(id: Id)
      requires Valid() && Enabled(Snapshot(), Stop(id))
      modifies this
      ensures Valid() && Snapshot() == Perform(old(Snapshot()), Stop(id))
      ensures count == old(count) && Live(Snapshot()) == old(Live(Snapshot()))
    {
      StepKeepsInvariant(Snapshot(), Stop(id));
      LiveAfterStep(Snapshot(), Stop(id));
      calls := calls[id := Stopping];
    }

    // The loop condition of stop once.
    method StopLoopCondition(id: Id, spurious: bool)
      requires Valid() && Enabled(Snapshot(), StopTry(id, spurious))
      modifies this
      ensures Valid() && Snapshot() == Perform(old(Snapshot()), StopTry(id, spurious))
      ensures Live(Snapshot()) == old(Live(Snapshot()))
      ensures calls[id].Stopped? ==> count == -1 && Live(Snapshot()) == {}
    {
      StepKeepsInvariant(Snapshot(), StopTry(id, spurious));
      LiveAfterStep(Snapshot(), StopTry(id, spurious));
      var exchanged, actual := CompareExchangeWeak(0, -1, spurious);
      calls := calls[id := if exchanged then Stopped else StopFailed(actual)];
    }

    // The loop body of stop once.
    method StopLoopBody(id: Id)
      requires Valid() && Enabled(Snapshot(), StopTest(id))
      modifies this
      ensures Valid() && Snapshot() == Perform(old(Snapshot()), StopTest(id))
      ensures count == old(count) && Live(Snapshot()) == old(Live(Snapshot()))
      ensures calls[id].Stopped? ==> count == -1 && Live(Snapshot()) == {}
    {
      StepKeepsInvariant(Snapshot(), StopTest(id));
      LiveAfterStep(Snapshot(), StopTest(id));
      if calls[id].expected < 0 {
        calls := calls[id := Stopped];
      } else {
        calls := calls[id := Stopping];
      }
    }
  }

  // ----- What every step keeps -----

  // What a call knows about the count: a negative value read, a refusal, and a return of stop
  // all mean that the gate is closed. No value read is greater than the number of identities.
  ghost predicate Knows(s: State, phase: Phase) {
    match phase
    case Trying(expected) => expected <= |s.calls| && (expected < 0 ==> s.count == -1)
    case StopFailed(expected) => expected <= |s.calls| && (expected < 0 ==> s.count == -1)
    case Refused => s.count == -1
    case Stopped => s.count == -1
    case _ => true
  }

  ghost predicate Counted(s: State) {
    s.count == |Live(s)| || (s.count == -1 && Live(s) == {})
  }

  ghost predicate Invariant(s: State) {
    && Counted(s)
    && forall id :: id in s.calls ==> Knows(s, s.calls[id])
  }

  lemma LiveAfter(s: State, id: Id, phase: Phase, count: int)
    ensures Live(State(count, s.calls[id := phase])) == if phase.Holding? then Live(s) + {id} else Live(s) - {id}
  {
  }

  // The live locks after a step: only the acting call's lock comes or goes, and a null return or a
  // return of stop means that the gate is closed.
  lemma LiveAfterStep(s: State, a: Action)
    requires Invariant(s) && Enabled(s, a)
    ensures a.id in Perform(s, a).calls
    ensures Live(Perform(s, a)) == if Perform(s, a).calls[a.id].Holding? then Live(s) + {a.id} else Live(s) - {a.id}
    ensures !a.Release? ==> a.id !in Live(s)
    ensures a.Release? ==> Perform(s, a).count >= 0
    ensures Perform(s, a).calls[a.id].Refused? || Perform(s, a).calls[a.id].Stopped? ==>
              Perform(s, a).count == -1 && Live(s) == {}
  {
    var t := Perform(s, a);
    LiveAfter(s, a.id, t.calls[a.id], t.count);
    ActorKnows(s, a);
    if a.Release? {
      assert a.id in Live(s);
    }
  }

  lemma CallsGrow(s: State, id: Id, phase: Phase)
    ensures |s.calls| <= |s.calls[id := phase]|
  {
  }

  lemma LiveAreCalls(s: State)
    ensures |Live(s)| <= |s.calls|
  {
    Contained(Live(s), s.calls.Keys);
  }

  lemma {:induction false} Contained(a: set<Id>, b: set<Id>)
    requires a <= b
    ensures |a| <= |b|
  {
    if a == {} {
    } else {
      var x :| x in a;
      Contained(a - {x}, b - {x});
    }
  }

  lemma StepKeepsCounted(s: State, a: Action)
    requires Invariant(s) && Enabled(s, a)
    ensures Counted(Perform(s, a))
    ensures s.count == -1 ==> Perform(s, a).count == -1
  {
    var t := Perform(s, a);
    LiveAfter(s, a.id, t.calls[a.id], t.count);
    assert Knows(s, Holding);
    if a.id in s.calls {
      assert Knows(s, s.calls[a.id]);
      assert s.calls[a.id].Holding? <==> a.id in Live(s);
    }
  }

  // What the acting call knows afterwards.
  lemma ActorKnows(s: State, a: Action)
    requires Invariant(s) && Enabled(s, a)
    ensures Knows(Perform(s, a), Perform(s, a).calls[a.id])
  {
    CallsGrow(s, a.id, Perform(s, a).calls[a.id]);
    LiveAreCalls(s);
    if a.id in s.calls {
      assert Knows(s, s.calls[a.id]);
    }
  }

  lemma StepKeepsInvariant(s: State, a: Action)
    requires Invariant(s) && Enabled(s, a)
    ensures Invariant(Perform(s, a))
    ensures s.count == -1 ==> Perform(s, a).count == -1
  {
    var t := Perform(s, a);
    StepKeepsCounted(s, a);
    ActorKnows(s, a);
    CallsGrow(s, a.id, t.calls[a.id]);
    OthersStay(s, a);
    hide Perform, Enabled, Counted, Live;
    forall id | id in t.calls && id != a.id
      ensures Knows(t, t.calls[id])
    {
      assert Knows(s, s.calls[id]);
    }
  }

  lemma OthersStay(s: State, a: Action)
    requires Enabled(s, a)
    ensures a.id in Perform(s, a).calls && Perform(s, a).calls == s.calls[a.id := Perform(s, a).calls[a.id]]
  {
  }

  lemma {:induction false} RunKeepsInvariant(s: State, actions: seq<Action>)
    requires Invariant(s) && ValidRun(s, actions)
    ensures Invariant(Run(s, actions))
    ensures s.count == -1 ==> Run(s, actions).count == -1
    decreases |actions|
  {
    if actions == [] {
    } else {
      StepKeepsInvariant(s, actions[0]);
      RunKeepsInvariant(Perform(s, actions[0]), actions[1..]);
    }
  }

  lemma ReachableInvariant(s: State)
    requires Reachable(s)
    ensures Invariant(s)
  {
    var actions :| ValidRun(INITIAL, actions) && Run(INITIAL, actions) == s;
    assert Live(INITIAL) == {};
    RunKeepsInvariant(INITIAL, actions);
  }

  // ----- Safety of every run -----

  // The values that calls in their loops have read.
  function ValuesRead(s: State): set<int> {
    set id | id in s.calls && (s.calls[id].Trying? || s.calls[id].StopFailed?) :: s.calls[id].expected
  }

  // The count is the number of live locks, or the gate is closed and no lock is live. Neither it
  // nor any value read is greater than the number of calls.
  lemma CountIsLiveOrClosed(s: State)
    requires Reachable(s)
    ensures s.count == |Live(s)| || (s.count == -1 && Live(s) == {})
    ensures s.count <= |s.calls| && forall n :: n in ValuesRead(s) ==> n <= |s.calls|
  {
    ReachableInvariant(s);
    LiveAreCalls(s);
  }

  // Once stop has returned, or continue_lock has returned null, the gate is closed, and in
  // whatever happens from then on it stays closed and no lock is live.
  lemma ClosedForever(s: State, id: Id, actions: seq<Action>)
    requires Reachable(s) && ValidRun(s, actions)
    requires s.count == -1 || (id in s.calls && (s.calls[id].Stopped? || s.calls[id].Refused?))
    ensures s.count == -1
    ensures Run(s, actions).count == -1 && Live(Run(s, actions)) == {}
  {
    ReachableInvariant(s);
    assert id in s.calls ==> Knows(s, s.calls[id]);
    RunKeepsInvariant(s, actions);
  }

  // ----- When stop returns -----

  // A failed exchange of stop that leaves it in its loop: it met a live lock, or it failed
  // spuriously on a count of zero.
  predicate InVain(s: State, spurious: bool) {
    Live(s) != {} || (s.count == 0 && spurious)
  }

  // In the loop of stop, with nothing read that will end it.
  predicate Waits(phase: Phase) {
    phase.Stopping? || (phase.StopFailed? && phase.expected >= 0)
  }

  // An exchange of stop, and the test that follows it, let stop return if and only if the gate is
  // closed already, or no lock is live and the exchange does not fail spuriously. Returning, it
  // leaves the gate closed; otherwise it leaves the count alone.
  lemma StopReturnsIff(s: State, id: Id, spurious: bool)
    requires Reachable(s) && Enabled(s, StopTry(id, spurious))
    ensures var t := Perform(s, StopTry(id, spurious));
            var over := t.calls[id].Stopped? || Perform(t, StopTest(id)).calls[id].Stopped?;
            && (over <==> s.count == -1 || (Live(s) == {} && !spurious))
            && t.count == if over then -1 else s.count
  {
    ReachableInvariant(s);
  }

  // Each exchange of a call of stop in a run is in vain.
  ghost predicate AllInVain(s: State, id: Id, actions: seq<Action>)
    requires ValidRun(s, actions)
    decreases |actions|
  {
    actions != [] ==>
      && (actions[0].StopTry? && actions[0].id == id ==> InVain(s, actions[0].spurious))
      && AllInVain(Perform(s, actions[0]), id, actions[1..])
  }

  // The run has no call of its own with this identity.
  ghost predicate SameCall(id: Id, actions: seq<Action>) {
    Load(id) !in actions && Stop(id) !in actions
  }

  // In every run a call of stop is still waiting at the end if and only if each of its exchanges
  // met a live lock or failed spuriously on a count of zero.
  lemma StopWaitsIff(s: State, id: Id, actions: seq<Action>)
    requires Reachable(s) && id in s.calls && Waits(s.calls[id])
    requires ValidRun(s, actions) && SameCall(id, actions)
    ensures id in Run(s, actions).calls
    ensures Waits(Run(s, actions).calls[id]) <==> AllInVain(s, id, actions)
  {
    ReachableInvariant(s);
    WaitsIff(s, id, actions);
  }

  lemma {:induction false} WaitsIff(s: State, id: Id, actions: seq<Action>)
    requires Invariant(s) && id in s.calls && Waits(s.calls[id])
    requires ValidRun(s, actions) && SameCall(id, actions)
    ensures id in Run(s, actions).calls
    ensures Waits(Run(s, actions).calls[id]) <==> AllInVain(s, id, actions)
    decreases |actions|
  {
    if actions == [] {
    } else {
      var a, rest := actions[0], actions[1..];
      StepKeepsInvariant(s, a);
      WaitsStep(s, id, a);
      hide Perform, Enabled, Invariant, InVain, Waits;
      if Waits(Perform(s, a).calls[id]) {
        WaitsIff(Perform(s, a), id, rest);
      } else {
        LeavingStays(Perform(s, a), id, rest);
      }
    }
  }

  predicate Leaves(phase: Phase) {
    phase.Stopped? || (phase.StopFailed? && phase.expected < 0)
  }

  // One step keeps the call waiting unless it is an exchange of its own that is not in vain.
  lemma WaitsStep(s: State, id: Id, a: Action)
    requires Invariant(s) && id in s.calls && Waits(s.calls[id]) && Enabled(s, a) && a != Load(id) && a != Stop(id)
    ensures id in Perform(s, a).calls
    ensures Waits(Perform(s, a).calls[id]) <==> (a.StopTry? && a.id == id ==> InVain(s, a.spurious))
    ensures !Waits(Perform(s, a).calls[id]) ==> Leaves(Perform(s, a).calls[id])
  {
  }

  lemma {:induction false} LeavingStays(s: State, id: Id, actions: seq<Action>)
    requires ValidRun(s, actions) && SameCall(id, actions) && id in s.calls && Leaves(s.calls[id])
    ensures id in Run(s, actions).calls && Leaves(Run(s, actions).calls[id])
    decreases |actions|
  {
    if actions == [] {
    } else {
      LeavingStays(Perform(s, actions[0]), id, actions[1..]);
    }
  }

  // ----- Progress -----

  // Up to position k of a run.
  lemma {:induction false} RunPrefix(s: State, actions: seq<Action>, k: nat)
    requires ValidRun(s, actions) && k < |actions|
    ensures ValidRun(s, actions[..k]) && Enabled(Run(s, actions[..k]), actions[k])
    decreases k
  {
    if k == 0 {
    } else {
      assert actions[..k][1..] == actions[1..][..k - 1];
      RunPrefix(Perform(s, actions[0]), actions[1..], k - 1);
    }
  }

  // A call gets its lock, gives it back, or closes the gate.
  ghost predicate Completes(s: State, a: Action)
    requires Enabled(s, a)
  {
    match a
    case Try(id, _) => Perform(s, a).calls[id].Holding?
    case Release(_) => true
    case StopTry(id, _) => Perform(s, a).calls[id].Stopped?
    case _ => false
  }

  // An exchange of continue_lock that fails because the count is not what was read.
  ghost predicate FailsForReal(s: State, a: Action) {
    a.Try? && Enabled(s, a) && 0 <= s.calls[a.id].expected != s.count
  }

  lemma OnlyCompletionsChangeTheCount(s: State, a: Action)
    requires Enabled(s, a)
    ensures Perform(s, a).count != s.count <==> Completes(s, a)
  {
  }

  ghost predicate OtherCompletes(s: State, actions: seq<Action>, k: int, id: Id)
    requires ValidRun(s, actions)
  {
    && 0 <= k < |actions| && actions[k].id != id
    && ValidRun(s, actions[..k]) && Enabled(Run(s, actions[..k]), actions[k])
    && Completes(Run(s, actions[..k]), actions[k])
  }

  // If an exchange of continue_lock fails for real, then since its value was read another call has
  // got a lock, given one back, or closed the gate.
  lemma {:induction false} FailureHasACause(s: State, id: Id, actions: seq<Action>)
    requires ValidRun(s, actions) && id in s.calls && s.calls[id] == Trying(s.count) && s.count >= 0
    requires forall i :: 0 <= i < |actions| && actions[i].id == id ==> actions[i] == Try(id, true)
    requires FailsForReal(Run(s, actions), Try(id, false))
    ensures exists k :: OtherCompletes(s, actions, k, id)
    decreases |actions|
  {
    if actions == [] {
    } else {
      var t := Perform(s, actions[0]);
      OnlyCompletionsChangeTheCount(s, actions[0]);
      if t.count != s.count {
        assert actions[..0] == [];
        assert OtherCompletes(s, actions, 0, id);
      } else {
        var rest := actions[1..];
        assert forall i :: 0 <= i < |rest| ==> rest[i] == actions[i + 1];
        FailureHasACause(t, id, rest);
        var k :| OtherCompletes(t, rest, k, id);
        RunPrefix(s, actions, k + 1);
        assert actions[..k + 1][1..] == rest[..k];
        assert OtherCompletes(s, actions, k + 1, id);
      }
    }
  }

  // The calls whose next exchange would fail for real.
  function Stale(s: State): set<Id> {
    set id | id in s.calls && s.calls[id].Trying? && 0 <= s.calls[id].expected != s.count
  }

  ghost function RealFailures(s: State, actions: seq<Action>): nat
    requires ValidRun(s, actions)
    decreases |actions|
  {
    if actions == [] then 0
    else (if FailsForReal(s, actions[0]) then 1 else 0) + RealFailures(Perform(s, actions[0]), actions[1..])
  }

  ghost function Completions(s: State, actions: seq<Action>): nat
    requires ValidRun(s, actions)
    decreases |actions|
  {
    if actions == [] then 0
    else (if Completes(s, actions[0]) then 1 else 0) + Completions(Perform(s, actions[0]), actions[1..])
  }

  // A real failure leaves one stale call fewer, and only a completion makes calls stale.
  lemma StaleAfterStep(s: State, a: Action)
    requires Enabled(s, a)
    ensures FailsForReal(s, a) ==> |Stale(Perform(s, a))| < |Stale(s)|
    ensures !Completes(s, a) ==> |Stale(Perform(s, a))| <= |Stale(s)|
    ensures |Stale(Perform(s, a))| <= |Perform(s, a).calls|
  {
    var t := Perform(s, a);
    Contained(Stale(t), t.calls.Keys);
    if FailsForReal(s, a) {
      assert a.id in Stale(s) && Stale(t) <= Stale(s) - {a.id};
      Contained(Stale(t), Stale(s) - {a.id});
    } else if !Completes(s, a) {
      OnlyCompletionsChangeTheCount(s, a);
      Contained(Stale(t), Stale(s));
    }
  }

  lemma {:induction false} CallsGrowInRun(s: State, actions: seq<Action>)
    requires ValidRun(s, actions)
    ensures |s.calls| <= |Run(s, actions).calls|
    decreases |actions|
  {
    if actions == [] {
    } else {
      var t := Perform(s, actions[0]);
      OthersStay(s, actions[0]);
      CallsGrow(s, actions[0].id, t.calls[actions[0].id]);
      CallsGrowInRun(t, actions[1..]);
    }
  }

  // The loop of continue_lock is lock-free: in every run, the exchanges that fail for real are at
  // most those of the calls stale at the start and, for each time that some call got a lock, gave
  // one back or closed the gate, one for each call.
  lemma {:induction false} LockFree(s: State, actions: seq<Action>)
    requires ValidRun(s, actions)
    ensures RealFailures(s, actions) <= |Stale(s)| + |Run(s, actions).calls| * Completions(s, actions)
    decreases |actions|
  {
    if actions == [] {
    } else {
      var a, rest := actions[0], actions[1..];
      var t := Perform(s, a);
      StaleAfterStep(s, a);
      CallsGrowInRun(t, rest);
      FailureIsNoCompletion(s, a);
      LockFree(t, rest);
      Distribute(|Run(t, rest).calls|, Completions(t, rest));
    }
  }

  lemma FailureIsNoCompletion(s: State, a: Action)
    requires Enabled(s, a)
    ensures !(FailsForReal(s, a) && Completes(s, a))
  {
  }

  lemma Distribute(n: nat, c: nat)
    ensures n * (1 + c) == n + n * c
  {
  }

  // The call that acts at position k of a run has its answer from continue_lock.
  ghost predicate Answered(s: State, actions: seq<Action>, k: int)
    requires ValidRun(s, actions)
  {
    && 0 <= k < |actions| && ValidRun(s, actions[..k]) && Enabled(Run(s, actions[..k]), actions[k])
    && var t := Perform(Run(s, actions[..k]), actions[k]);
       actions[k].id in t.calls && (t.calls[actions[k].id].Holding? || t.calls[actions[k].id].Refused?)
  }

  // Among any more tries than there are stale calls, none of them failing spuriously, one gives its
  // call a lock or null.
  lemma {:induction false} TriesMakeProgress(s: State, actions: seq<Action>)
    requires ValidRun(s, actions) && |actions| > |Stale(s)|
    requires forall i :: 0 <= i < |actions| ==> actions[i].Try? && !actions[i].spurious
    ensures exists k :: Answered(s, actions, k)
    decreases |actions|
  {
    var a, rest := actions[0], actions[1..];
    assert actions[..0] == [];
    if !Answered(s, actions, 0) {
      StaleAfterStep(s, a);
      assert forall i :: 0 <= i < |rest| ==> rest[i] == actions[i + 1];
      TriesMakeProgress(Perform(s, a), rest);
      var k :| Answered(Perform(s, a), rest, k);
      RunPrefix(s, actions, k + 1);
      assert actions[..k + 1][1..] == rest[..k];
      assert Answered(s, actions, k + 1);
    }
  }

  // From every reachable state a call of stop can return, with nothing but its own steps and the
  // release of the live locks: there is no deadlock.
  lemma {:induction false} StopCanReturn(s: State, id: Id) returns (actions: seq<Action>)
    requires Invariant(s) && id in s.calls && (s.calls[id].Stopping? || s.calls[id].StopFailed?)
    ensures ValidRun(s, actions) && id in Run(s, actions).calls && Run(s, actions).calls[id].Stopped?
    ensures forall a :: a in actions ==> a.Release? || a.id == id
    decreases |Live(s)|, if s.calls[id].Stopping? then 1 else if s.calls[id].expected < 0 then 0 else 2
  {
    var a :=
      if s.calls[id].StopFailed? then StopTest(id)
      else if Live(s) != {} then var x :| x in Live(s); Release(x)
      else StopTry(id, false);
    var t := Perform(s, a);
    StepKeepsInvariant(s, a);
    LiveAfter(s, a.id, t.calls[a.id], t.count);
    var rest := [];
    if !t.calls[id].Stopped? {
      rest := StopCanReturn(t, id);
    }
    actions := [a] + rest;
    assert actions[1..] == rest;
  }

  // ----- Starvation -----

  ghost predicate Leads(s: State, actions: seq<Action>, t: State) {
    ValidRun(s, actions) && Run(s, actions) == t
  }

  lemma LeadsNowhere(s: State)
    ensures Leads(s, [], s)
  {
  }

  lemma LeadsStep(s: State, a: Action, rest: seq<Action>, t: State)
    requires Enabled(s, a) && Leads(Perform(s, a), rest, t)
    ensures Leads(s, [a] + rest, t)
  {
  }

  lemma {:induction false} LeadsOn(s: State, first: seq<Action>, t: State, second: seq<Action>, u: State)
    requires Leads(s, first, t) && Leads(t, second, u)
    ensures Leads(s, first + second, u)
    decreases |first|
  {
    if first == [] {
      assert first + second == second;
    } else {
      assert first + second == [first[0]] + (first[1..] + second);
      LeadsOn(Perform(s, first[0]), first[1..], t, second, u);
      LeadsStep(s, first[0], first[1..] + second, u);
    }
  }

  // One call holds a lock, another does not, and call 3 waits in stop.
  function Waiting(holder: Id, other: Id): State {
    State(1, map[holder := Holding, other := Released, 3 := Stopping])
  }

  // Stop tries in vain, the other call gets a lock, and the holder gives its lock back.
  function Turn(holder: Id, other: Id): seq<Action> {
    [StopTry(3, false), StopTest(3), Load(other), Try(other, false), Release(holder)]
  }

  lemma TurnLeads(holder: Id, other: Id)
    requires holder != other && holder != 3 && other != 3
    ensures Leads(Waiting(holder, other), Turn(holder, other), Waiting(other, holder))
  {
    var s, t := Waiting(holder, other), Waiting(other, holder);
    var s1 := Perform(s, StopTry(3, false));
    var s2 := Perform(s1, StopTest(3));
    var s3 := Perform(s2, Load(other));
    var s4 := Perform(s3, Try(other, false));
    assert Perform(s4, Release(holder)) == t;
    hide Perform, Enabled, ValidRun, Run;
    LeadsNowhere(t);
    LeadsStep(s4, Release(holder), [], t);
    LeadsStep(s3, Try(other, false), [Release(holder)], t);
    LeadsStep(s2, Load(other), [Try(other, false), Release(holder)], t);
    LeadsStep(s1, StopTest(3), [Load(other), Try(other, false), Release(holder)], t);
    LeadsStep(s, StopTry(3, false), [StopTest(3), Load(other), Try(other, false), Release(holder)], t);
  }

  // Two turns lead back to where they started.
  lemma TwoTurns(holder: Id, other: Id)
    requires holder != other && holder != 3 && other != 3
    ensures Leads(Waiting(holder, other), Turn(holder, other) + Turn(other, holder), Waiting(holder, other))
  {
    hide *;
    TurnLeads(holder, other);
    TurnLeads(other, holder);
    LeadsOn(Waiting(holder, other), Turn(holder, other), Waiting(other, holder),
            Turn(other, holder), Waiting(holder, other));
  }

  function Turns(holder: Id, other: Id, n: nat): seq<Action> {
    if n == 0 then [] else Turn(holder, other) + Turn(other, holder) + Turns(holder, other, n - 1)
  }

  predicate Spurious(a: Action) {
    (a.Try? || a.StopTry?) && a.spurious
  }

  // The number of exchanges of a call of stop.
  function Exchanges(id: Id, actions: seq<Action>): nat {
    if actions == [] then 0
    else (if actions[0].StopTry? && actions[0].id == id then 1 else 0) + Exchanges(id, actions[1..])
  }

  // Calls of continue_lock that overlap can keep stop waiting: for every n there is a run with 2n
  // exchanges, all in vain and none failing spuriously, although every lock is given back six
  // steps after it was got.
  lemma StopMayStarve(n: nat)
    ensures Reachable(Waiting(1, 2)) && Leads(Waiting(1, 2), Turns(1, 2, n), Waiting(1, 2))
    ensures Exchanges(3, Turns(1, 2, n)) == 2 * n && AllInVain(Waiting(1, 2), 3, Turns(1, 2, n))
    ensures forall a :: a in Turns(1, 2, n) ==> !Spurious(a)
    ensures forall k :: 0 <= k < |Turns(1, 2, n)| - 6 && Turns(1, 2, n)[k].Try? ==>
              Turns(1, 2, n)[k + 6] == Release(Turns(1, 2, n)[k].id)
  {
    forall k | 0 <= k < |Turns(1, 2, n)| - 6 && Turns(1, 2, n)[k].Try?
      ensures Turns(1, 2, n)[k + 6] == Release(Turns(1, 2, n)[k].id)
    {
      TurnsAt(1, 2, n, k);
      TurnsAt(1, 2, n, k + 6);
    }
    WaitingStops(1, 2);
    hide *;
    WaitingIsReachable(1, 2);
    TurnsLead(1, 2, n);
    TurnsActions(1, 2, n);
    LeadsIs(Waiting(1, 2), Turns(1, 2, n), Waiting(1, 2));
    StopWaitsIff(Waiting(1, 2), 3, Turns(1, 2, n));
  }

  // The action at position k.
  lemma {:induction false} TurnsAt(holder: Id, other: Id, n: nat, k: nat)
    ensures |Turns(holder, other, n)| == 10 * n
    ensures k < 10 * n && k % 10 < 5 ==> Turns(holder, other, n)[k] == Turn(holder, other)[k % 10]
    ensures k < 10 * n && k % 10 >= 5 ==> Turns(holder, other, n)[k] == Turn(other, holder)[k % 10 - 5]
  {
    if n == 0 {
    } else if k < 10 {
      TurnsAt(holder, other, n - 1, 0);
    } else {
      TurnsAt(holder, other, n - 1, k - 10);
      assert k % 10 == (k - 10) % 10;
    }
  }

  lemma LeadsIs(s: State, actions: seq<Action>, t: State)
    requires Leads(s, actions, t)
    ensures ValidRun(s, actions) && Run(s, actions) == t
  {
  }

  lemma WaitingStops(holder: Id, other: Id)
    requires holder != other && holder != 3 && other != 3
    ensures 3 in Waiting(holder, other).calls && Waits(Waiting(holder, other).calls[3])
  {
  }

  lemma {:induction false} TurnsActions(holder: Id, other: Id, n: nat)
    requires holder != 3 && other != 3
    ensures Exchanges(3, Turns(holder, other, n)) == 2 * n && SameCall(3, Turns(holder, other, n))
    ensures forall a :: a in Turns(holder, other, n) ==> !Spurious(a)
  {
    if n == 0 {
    } else {
      var first, second, rest := Turn(holder, other), Turn(other, holder), Turns(holder, other, n - 1);
      TurnActions(holder, other);
      TurnActions(other, holder);
      TurnsActions(holder, other, n - 1);
      hide Turn, Exchanges, Spurious;
      ExchangesOf(first, second);
      ExchangesOf(first + second, rest);
    }
  }

  lemma TurnActions(holder: Id, other: Id)
    requires holder != 3 && other != 3
    ensures Exchanges(3, Turn(holder, other)) == 1 && SameCall(3, Turn(holder, other))
    ensures forall a :: a in Turn(holder, other) ==> !Spurious(a)
  {
    hide Exchanges;
    var r1 := [Release(holder)] + [];
    var r2 := [Try(other, false)] + r1;
    var r3 := [Load(other)] + r2;
    var r4 := [StopTest(3)] + r3;
    assert Turn(holder, other) == [StopTry(3, false)] + r4;
    ExchangesFirst(Release(holder), []);
    ExchangesFirst(Try(other, false), r1);
    ExchangesFirst(Load(other), r2);
    ExchangesFirst(StopTest(3), r3);
    ExchangesFirst(StopTry(3, false), r4);
  }

  lemma ExchangesFirst(a: Action, rest: seq<Action>)
    ensures Exchanges(3, [a] + rest) == (if a.StopTry? && a.id == 3 then 1 else 0) + Exchanges(3, rest)
    ensures Exchanges(3, []) == 0
  {
    assert ([a] + rest)[1..] == rest;
  }

  lemma {:induction false} ExchangesOf(first: seq<Action>, second: seq<Action>)
    ensures Exchanges(3, first + second) == Exchanges(3, first) + Exchanges(3, second)
  {
    if first == [] {
      assert first + second == second;
    } else {
      assert (first + second)[1..] == first[1..] + second;
      ExchangesOf(first[1..], second);
    }
  }

  lemma {:induction false} TurnsLead(holder: Id, other: Id, n: nat)
    requires holder != other && holder != 3 && other != 3
    ensures Leads(Waiting(holder, other), Turns(holder, other, n), Waiting(holder, other))
  {
    hide Turn, Waiting, Leads;
    var s := Waiting(holder, other);
    if n == 0 {
      LeadsNowhere(s);
    } else {
      TwoTurns(holder, other);
      TurnsLead(holder, other, n - 1);
      LeadsOn(s, Turn(holder, other) + Turn(other, holder), s, Turns(holder, other, n - 1), s);
    }
  }

  lemma WaitingIsReachable(holder: Id, other: Id)
    requires holder != other && holder != 3 && other != 3
    ensures Reachable(Waiting(holder, other))
  {
    var t := Waiting(holder, other);
    var s1 := Perform(INITIAL, Load(other));
    var s2 := Perform(s1, Try(other, false));
    var s3 := Perform(s2, Release(other));
    var s4 := Perform(s3, Load(holder));
    var s5 := Perform(s4, Try(holder, false));
    assert Perform(s5, Stop(3)) == t;
    hide Perform, Enabled, ValidRun, Run;
    LeadsNowhere(t);
    LeadsStep(s5, Stop(3), [], t);
    LeadsStep(s4, Try(holder, false), [Stop(3)], t);
    LeadsStep(s3, Load(holder), [Try(holder, false), Stop(3)], t);
    LeadsStep(s2, Release(other), [Load(holder), Try(holder, false), Stop(3)], t);
    LeadsStep(s1, Try(other, false), [Release(other), Load(holder), Try(holder, false), Stop(3)], t);
    LeadsStep(INITIAL, Load(other), [Try(other, false), Release(other), Load(holder), Try(holder, false), Stop(3)], t);
  }
}
