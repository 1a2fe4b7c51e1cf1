/**
 singledo.Single without Reset: Do called by any number of threads, over every interleaving of what
 happens under the mutex and what happens outside.
 */
module SingleFlight {
  import opened Wrappers

  type Value = nat  // what fn returns: value and error
  type Time = int

  // An execution of fn: by which thread, the number and the clock reading of its Do, what it gave, once it
  // has, and how many Dos had begun when that was published, once it is.
  datatype Call = Call(thread: nat, order: nat, start: Time, val: Option<Value>, until: Option<nat>)

  datatype Origin = Own | Joined | Cached

  // Where a thread stands in Do; `now` is the clock reading of this Do, `at` its number.
  datatype Thread =
    | Idle
    | Reading(at: nat, now: Time)         // out of the mutex, about to read s.result
    | Waiting(at: nat, now: Time, c: nat) // call.wg.Wait()
    | Running(c: nat)                     // in fn
    | Publishing(c: nat)                  // fn is done, result and last are not set yet
    | Returned(at: nat, now: Time, v: Value, origin: Origin, c: nat)  // v is what call c gave

  // The fields of Single, the calls so far, the threads, the clock, and how many Dos have begun.
  datatype State = State(
    wait: int,
    last: Option<Time>,    // None: the zero time, long ago
    call: Option<nat>,
    result: Option<nat>,   // the call whose value and error it holds
    calls: seq<Call>,
    threads: seq<Thread>,
    clock: Time,
    asked: nat)
  {
    // s.result.Val and s.result.Err, where there is a result
    function ResultOf(c: nat): Option<Value> {
      if c < |calls| then calls[c].val else None
    }

    function Put(t: nat, to: Thread): State
      requires t < |threads|
    {
      this.(threads := threads[t := to])
    }
  }

  function Initial(wait: int, n: nat, clock: Time): State {
    State(wait, None, None, None, [], seq(n, _ => Idle), clock, 0)
  }

  datatype Step =
    | Enter(t: nat, now: Time)     // Do, up to the first Unlock
    | ReadResult(t: nat)
    | WaitEnds(t: nat)
    | FnReturns(t: nat, v: Value)  // and wg.Done()
    | Publish(t: nat)              // the second critical section

  predicate IsRecent(s: State, now: Time) {
    s.last.Some? && now < s.last.value + s.wait
  }

  predicate Enabled(s: State, a: Step) {
    a.t < |s.threads| &&
    match a
    case Enter(t, now) => (s.threads[t].Idle? || s.threads[t].Returned?) && s.clock <= now
    case ReadResult(t) => s.threads[t].Reading?
    case WaitEnds(t) => s.threads[t].Waiting? && s.ResultOf(s.threads[t].c).Some?
    case FnReturns(t, v) => s.threads[t].Running?
    case Publish(t) => s.threads[t].Publishing?
  }

  // Reading a nil result, or waiting for a call there is not, would leave the state as it is here and
  // panic there; NilIsNeverRead and the invariant show that it does not come to that.
  function Apply(s: State, a: Step): State
    requires Enabled(s, a)
  {
    match a
    case Enter(t, now) =>
      var s1 := s.(clock := now, asked := s.asked + 1);
      if IsRecent(s, now) then s1.Put(t, Reading(s.asked, now))
      else if s.call.Some? then s1.Put(t, Waiting(s.asked, now, s.call.value))
      else
        s1.(calls := s.calls + [Call(t, s.asked, now, None, None)], call := Some(|s.calls|)).Put(t, Running(|s.calls|))
    case ReadResult(t) =>
      if s.result.Some? && s.ResultOf(s.result.value).Some? then
        s.Put(t, Returned(s.threads[t].at, s.threads[t].now, s.ResultOf(s.result.value).value, Cached, s.result.value))
      else s
    case WaitEnds(t) =>
      var c := s.threads[t].c;
      s.Put(t, Returned(s.threads[t].at, s.threads[t].now, s.ResultOf(c).value, Joined, c))
    case FnReturns(t, v) =>
      var c := s.threads[t].c;
      if c < |s.calls| then s.(calls := s.calls[c := s.calls[c].(val := Some(v))]).Put(t, Publishing(c)) else s
    case Publish(t) =>
      var c := s.threads[t].c;
      if c < |s.calls| && s.calls[c].val.Some? then
        s.(call := None, result := Some(c), last := Some(s.calls[c].start),
           calls := s.calls[c := s.calls[c].(until := Some(s.asked))])
         .Put(t, Returned(s.calls[c].order, s.calls[c].start, s.calls[c].val.value, Own, c))
      else s
  }

  function After(init: State, steps: seq<Step>): Option<State> {
    if steps == [] then Some(init)
    else
      var before := After(init, steps[..|steps| - 1]);
      var a := steps[|steps| - 1];
      if before.Some? && Enabled(before.value, a) then Some(Apply(before.value, a)) else None
  }

  // ----- what every step keeps -----

  predicate Spaced(a: Call, b: Call, wait: int) {
    a.start <= b.start && a.start + wait <= b.start
  }

  // The calls finish in the order they start, and are at least `wait` apart.
  ghost predicate CallsOk(s: State) {
    && (forall i, j :: 0 <= i < j < |s.calls| ==> Spaced(s.calls[i], s.calls[j], s.wait))
    && (forall i :: 0 <= i < |s.calls| ==> s.calls[i].start <= s.clock && s.calls[i].order < s.asked)
    && (forall i :: 0 <= i < |s.calls| - 1 ==> s.calls[i].val.Some?)
  }

  // What the fields say about the calls: the last one is in flight, or it is the result.
  ghost predicate FieldsOk(s: State) {
    && var n := |s.calls|;
    && (s.call.Some? ==> n > 0 && s.call.value == n - 1 && s.calls[n - 1].until == None)
    && var published := if s.call.Some? then n - 1 else n;
    && (if published == 0 then s.result == None && s.last == None
        else
          s.result == Some(published - 1) && s.calls[published - 1].val.Some?
          && s.last == Some(s.calls[published - 1].start))
  }

  // When that Do asked, call c had started and was not published yet, and no later call had started.
  ghost predicate WasInFlight(s: State, c: nat, at: nat, now: Time)
    requires c < |s.calls|
  {
    && s.calls[c].order < at < s.asked && (s.calls[c].until.Some? ==> at < s.calls[c].until.value)
    && s.calls[c].start <= now <= s.clock && (c + 1 < |s.calls| ==> now <= s.calls[c + 1].start)
  }

  ghost predicate ThreadOk(s: State, t: nat)
    requires t < |s.threads|
  {
    match s.threads[t]
    case Idle => true
    case Reading(_, now) => s.result.Some? && s.result.value < |s.calls| && now < s.calls[s.result.value].start + s.wait
    case Waiting(at, now, c) => c < |s.calls| && WasInFlight(s, c, at, now)
      && (s.calls[c].val.Some? || s.call == Some(c))
    case Running(c) => s.call == Some(c) && c < |s.calls| && s.calls[c].thread == t && s.calls[c].val == None
    case Publishing(c) => s.call == Some(c) && c < |s.calls| && s.calls[c].thread == t && s.calls[c].val.Some?
    case Returned(at, now, v, origin, c) =>
      && c < |s.calls| && s.calls[c].val == Some(v)
      && (origin.Own? ==> at == s.calls[c].order && now == s.calls[c].start && s.calls[c].thread == t)
      && (origin.Joined? ==> WasInFlight(s, c, at, now))
      && (origin.Cached? ==> now < s.calls[c].start + s.wait)
  }

  predicate InFlight(t: Thread) {
    t.Running? || t.Publishing?
  }

  // A call in flight has its thread on it.
  ghost predicate FlightOk(s: State) {
    s.call.Some? && s.call.value < |s.calls| ==>
      var t := s.calls[s.call.value].thread;
      t < |s.threads| && InFlight(s.threads[t])
  }

  ghost predicate ThreadsOk(s: State) {
    forall t :: 0 <= t < |s.threads| ==> ThreadOk(s, t)
  }

  ghost predicate Invariant(s: State) {
    CallsOk(s) && FieldsOk(s) && FlightOk(s) && ThreadsOk(s)
  }

  // Starting a call changes no other thread's standing.
  lemma StartKeepsInvariant(s: State, t: nat, now: Time)
    requires Invariant(s) && Enabled(s, Enter(t, now)) && !IsRecent(s, now) && s.call == None
    ensures Invariant(Apply(s, Enter(t, now)))
  {
    var s1 := Apply(s, Enter(t, now));
    var n := |s.calls|;
    assert s1.calls[n] == Call(t, s.asked, now, None, None) && forall i :: 0 <= i < n ==> s1.calls[i] == s.calls[i];
    CallsStay(s, s1, t);
    assert FlightOk(s1);
    hide CallsOk, FlightOk;
    forall u | 0 <= u < |s1.threads|
      ensures ThreadOk(s1, u)
    {
      assert ThreadOk(s, u);
    }
  }

  lemma CallsStay(s: State, s1: State, t: nat)
    requires CallsOk(s) && FieldsOk(s) && s.call == None && s1.wait == s.wait && s.clock <= s1.clock
             && s1.asked == s.asked + 1
    requires s1.calls == s.calls + [Call(t, s.asked, s1.clock, None, None)] && !IsRecent(s, s1.clock)
    ensures CallsOk(s1)
  {
    var n := |s.calls|;
    forall i | 0 <= i < n
      ensures Spaced(s.calls[i], s1.calls[n], s.wait)
    {
      assert i < n - 1 ==> Spaced(s.calls[i], s.calls[n - 1], s.wait);
    }
  }

  lemma ClockMoves(s: State, now: Time)
    requires ThreadsOk(s) && s.clock <= now
    ensures ThreadsOk(s.(clock := now, asked := s.asked + 1))
  {
    var s1 := s.(clock := now, asked := s.asked + 1);
    forall t | 0 <= t < |s.threads|
      ensures ThreadOk(s1, t)
    {
      assert ThreadOk(s, t);
    }
  }

  lemma EnterKeepsInvariant(s: State, t: nat, now: Time)
    requires Invariant(s) && Enabled(s, Enter(t, now))
    ensures Invariant(Apply(s, Enter(t, now)))
  {
    if IsRecent(s, now) || s.call.Some? {
      assert ThreadOk(s, t);
      ClockMoves(s, now);
      OthersStay(s.(clock := now, asked := s.asked + 1), Apply(s, Enter(t, now)), t);
    } else {
      StartKeepsInvariant(s, t, now);
    }
  }

  // A step that leaves fields and calls as they are leaves all other threads as they are.
  lemma OthersStay(s: State, s1: State, t: nat)
    requires ThreadsOk(s) && t < |s.threads| == |s1.threads| && s1 == s.(threads := s.threads[t := s1.threads[t]])
             && ThreadOk(s1, t)
    ensures ThreadsOk(s1)
  {
    forall u | 0 <= u < |s1.threads|
      ensures ThreadOk(s1, u)
    {
      assert ThreadOk(s, u);
    }
  }

  lemma ThreadIsOk(s: State, t: nat)
    requires ThreadsOk(s) && t < |s.threads|
    ensures ThreadOk(s, t)
  {
  }

  lemma SameWasInFlight(s: State, s1: State, c: nat, at: nat, now: Time)
    requires s1.calls == s.calls && s1.clock == s.clock && s1.asked == s.asked && c < |s.calls|
    ensures WasInFlight(s1, c, at, now) == WasInFlight(s, c, at, now)
  {
  }

  // A step of a thread that is on no call leaves the call in flight with its thread.
  lemma CallStays(s: State, s1: State, t: nat)
    requires CallsOk(s) && FlightOk(s) && t < |s.threads| == |s1.threads| && !InFlight(s.threads[t])
    requires s1 == s.(threads := s.threads[t := s1.threads[t]])
    ensures CallsOk(s1) && FlightOk(s1)
  {
  }

  lemma ReadKeepsInvariant(s: State, t: nat)
    requires Invariant(s) && Enabled(s, ReadResult(t))
    ensures Invariant(Apply(s, ReadResult(t)))
  {
    hide CallsOk, FlightOk, ThreadsOk, WasInFlight;
    ThreadIsOk(s, t);
    OthersStay(s, Apply(s, ReadResult(t)), t);
    CallStays(s, Apply(s, ReadResult(t)), t);
  }

  lemma WaitKeepsInvariant(s: State, t: nat)
    requires Invariant(s) && Enabled(s, WaitEnds(t))
    ensures Invariant(Apply(s, WaitEnds(t)))
  {
    hide CallsOk, FlightOk, ThreadsOk, WasInFlight;
    ThreadIsOk(s, t);
    SameWasInFlight(s, Apply(s, WaitEnds(t)), s.threads[t].c, s.threads[t].at, s.threads[t].now);
    OthersStay(s, Apply(s, WaitEnds(t)), t);
    CallStays(s, Apply(s, WaitEnds(t)), t);
  }

  // The call in flight gets its value, or is published: all other calls stay, and so do all threads but
  // the one on it.
  lemma CallMoves(s: State, s1: State, c: nat, t: nat, u: nat)
    requires FieldsOk(s) && t < |s.threads| && ThreadOk(s, t) && u < |s.threads| && u != t && ThreadOk(s, u)
    requires InFlight(s.threads[t]) && s.threads[t].c == c && s.call == Some(c) && c < |s.calls|
    requires |s1.calls| == |s.calls| && |s1.threads| == |s.threads|
    requires s1 == s.(calls := s.calls[c := s1.calls[c]], threads := s.threads[t := s1.threads[t]],
                      call := s1.call, result := s1.result, last := s1.last)
    requires s1.calls[c].val.Some? && (s.calls[c].val.Some? ==> s1.calls[c].val == s.calls[c].val)
    requires s1.calls[c] == s.calls[c].(val := s1.calls[c].val, until := s1.calls[c].until)
    requires s1.calls[c].until == None || s1.calls[c].until == Some(s.asked)
    requires s1.result == s.result
             || (s1.result == Some(c) && (s.result.Some? ==> s.calls[s.result.value].start <= s1.calls[c].start))
    ensures ThreadOk(s1, u)
  {
    assert s1.threads[u] == s.threads[u];
  }

  lemma FnKeepsInvariant(s: State, t: nat, v: Value)
    requires Invariant(s) && Enabled(s, FnReturns(t, v))
    ensures Invariant(Apply(s, FnReturns(t, v)))
  {
    var s1 := Apply(s, FnReturns(t, v));
    assert ThreadOk(s, t);
    var c := s.threads[t].c;
    forall u | 0 <= u < |s1.threads|
      ensures ThreadOk(s1, u)
    {
      hide CallsOk, FlightOk;
      assert ThreadOk(s, u);
      if u != t {
        CallMoves(s, s1, c, t, u);
      }
    }
    hide FieldsOk, ThreadOk;
    assert CallsOk(s1) && FlightOk(s1);
  }

  lemma PublishKeepsInvariant(s: State, t: nat)
    requires Invariant(s) && Enabled(s, Publish(t))
    ensures Invariant(Apply(s, Publish(t)))
  {
    var s1 := Apply(s, Publish(t));
    assert ThreadOk(s, t);
    var c := s.threads[t].c;
    assert s.result.Some? ==> Spaced(s.calls[s.result.value], s.calls[c], s.wait);
    forall u | 0 <= u < |s1.threads|
      ensures ThreadOk(s1, u)
    {
      hide CallsOk, FlightOk;
      assert ThreadOk(s, u);
      if u != t {
        CallMoves(s, s1, c, t, u);
      }
    }
  }

  lemma StepKeepsInvariant(s: State, a: Step)
    requires Invariant(s) && Enabled(s, a)
    ensures Invariant(Apply(s, a))
  {
    hide Invariant, Apply, Enabled;
    match a
    case Enter(t, now) => EnterKeepsInvariant(s, t, now);
    case ReadResult(t) => ReadKeepsInvariant(s, t);
    case WaitEnds(t) => WaitKeepsInvariant(s, t);
    case FnReturns(t, v) => FnKeepsInvariant(s, t, v);
    case Publish(t) => PublishKeepsInvariant(s, t);
  }

  lemma {:induction false} RunKeepsInvariant(wait: int, n: nat, clock: Time, steps: seq<Step>)
    ensures var s := After(Initial(wait, n, clock), steps); s.Some? ==> Invariant(s.value) && s.value.wait == wait
  {
    hide Invariant, Enabled;
    if steps == [] {
      InitialHolds(wait, n, clock);
    } else {
      RunKeepsInvariant(wait, n, clock, steps[..|steps| - 1]);
      var before := After(Initial(wait, n, clock), steps[..|steps| - 1]);
      if before.Some? && Enabled(before.value, steps[|steps| - 1]) {
        StepKeepsInvariant(before.value, steps[|steps| - 1]);
      }
    }
  }

  lemma InitialHolds(wait: int, n: nat, clock: Time)
    ensures Invariant(Initial(wait, n, clock))
  {
  }

  // ----- what callers rely on -----

  // In every interleaving, fn runs in at most one thread at a time, and two executions start at least
  // `wait` apart.
  lemma OneAtATime(wait: int, n: nat, clock: Time, steps: seq<Step>)
    requires After(Initial(wait, n, clock), steps).Some?
    ensures var s := After(Initial(wait, n, clock), steps).value;
            && (forall t, u ::
               0 <= t < |s.threads| && 0 <= u < |s.threads| && s.threads[t].Running? && s.threads[u].Running? ==>
               t == u)
            && (forall i, j :: 0 <= i < j < |s.calls| ==> s.calls[i].start + wait <= s.calls[j].start)
  {
    RunKeepsInvariant(wait, n, clock, steps);
    var s := After(Initial(wait, n, clock), steps).value;
    hide After;
    forall t, u | 0 <= t < |s.threads| && 0 <= u < |s.threads| && s.threads[t].Running? && s.threads[u].Running?
      ensures t == u
    {
      assert ThreadOk(s, t) && ThreadOk(s, u);
    }
    forall i, j | 0 <= i < j < |s.calls|
      ensures s.calls[i].start + wait <= s.calls[j].start
    {
      assert Spaced(s.calls[i], s.calls[j], s.wait);
    }
  }

  // What Do gives back is what an execution gave: its own; or, if shared, that of the call that was in
  // flight when it asked, begun and not published, or of one that had started less than `wait` before.
  lemma ValuesAreGenuine(wait: int, n: nat, clock: Time, steps: seq<Step>, t: nat)
    requires After(Initial(wait, n, clock), steps).Some? && t < |After(Initial(wait, n, clock), steps).value.threads|
    ensures var s := After(Initial(wait, n, clock), steps).value;
            s.threads[t].Returned? ==>
              var Returned(at, now, v, origin, c) := s.threads[t];
              c < |s.calls| && s.calls[c].val == Some(v) &&
              match origin {
                case Own => s.calls[c].thread == t && s.calls[c].order == at && s.calls[c].start == now
                case Joined => WasInFlight(s, c, at, now)
                case Cached => now < s.calls[c].start + wait
              }
  {
    RunKeepsInvariant(wait, n, clock, steps);
    assert ThreadOk(After(Initial(wait, n, clock), steps).value, t);
    hide After;
  }

  // The result is never nil where it is read without the mutex.
  lemma NilIsNeverRead(wait: int, n: nat, clock: Time, steps: seq<Step>, t: nat)
    requires After(Initial(wait, n, clock), steps).Some?
             && Enabled(After(Initial(wait, n, clock), steps).value, ReadResult(t))
    ensures var s := After(Initial(wait, n, clock), steps).value;
            s.result.Some? && Apply(s, ReadResult(t)).threads[t].Returned?
  {
    RunKeepsInvariant(wait, n, clock, steps);
    assert ThreadOk(After(Initial(wait, n, clock), steps).value, t);
    hide After;
  }

  // Nobody waits for nothing: while a thread is inside Do, some thread inside Do can take its next step.
  lemma NoDeadlock(wait: int, n: nat, clock: Time, steps: seq<Step>, t: nat) returns (a: Step)
    requires After(Initial(wait, n, clock), steps).Some?
    requires var s := After(Initial(wait, n, clock), steps).value;
             t < |s.threads| && !s.threads[t].Idle? && !s.threads[t].Returned?
    ensures !a.Enter? && Enabled(After(Initial(wait, n, clock), steps).value, a)
  {
    RunKeepsInvariant(wait, n, clock, steps);
    var s := After(Initial(wait, n, clock), steps).value;
    hide After;
    assert ThreadOk(s, t);
    match s.threads[t]
    case Reading(_, _) => a := ReadResult(t);
    case Running(_) => a := FnReturns(t, 0);
    case Publishing(_) => a := Publish(t);
    case Waiting(_, _, c) =>
      if s.calls[c].val.Some? {
        a := WaitEnds(t);
      } else {
        var u := s.calls[c].thread;
        a := if s.threads[u].Running? then FnReturns(u, 0) else Publish(u);
      }
  }
  // ----- every Do returns -----

  // How many steps a thread has before it, and all of them together
  function ToDo(t: Thread): nat {
    match t
    case Idle => 0
    case Reading(_, _) => 1
    case Waiting(_, _, _) => 1
    case Running(_) => 2
    case Publishing(_) => 1
    case Returned(_, _, _, _, _) => 0
  }

  function Work(threads: seq<Thread>): nat {
    if threads == [] then 0 else ToDo(threads[0]) + Work(threads[1..])
  }

  lemma {:induction false} WorkOfOne(threads: seq<Thread>, t: nat, to: Thread)
    requires t < |threads|
    ensures Work(threads[t := to]) == Work(threads) - ToDo(threads[t]) + ToDo(to)
  {
    var after := threads[t := to];
    if t == 0 {
      assert after[1..] == threads[1..];
    } else {
      assert after[1..] == threads[1..][t - 1 := to];
      WorkOfOne(threads[1..], t - 1, to);
    }
  }

  lemma {:induction false} WorkIsBounded(threads: seq<Thread>)
    ensures Work(threads) <= 2 * |threads|
  {
    if threads != [] {
      WorkIsBounded(threads[1..]);
    }
  }

  // Every step but a new Do leaves one step less.
  lemma StepDoesWork(s: State, a: Step)
    requires Invariant(s) && Enabled(s, a) && !a.Enter?
    ensures Work(Apply(s, a).threads) == Work(s.threads) - 1
  {
    hide CallsOk, FlightOk, WasInFlight, Work;
    assert ThreadOk(s, a.t);
    var s1 := Apply(s, a);
    WorkOfOne(s.threads, a.t, s1.threads[a.t]);
    assert s1.threads == s.threads[a.t := s1.threads[a.t]];
  }

  // Whatever happened, and whatever the threads inside Do do next, they take no more steps than their
  // work; and when none of them can go on, all have returned.
  lemma {:induction false} EveryDoReturns(wait: int, n: nat, clock: Time, steps: seq<Step>, more: seq<Step>)
    requires After(Initial(wait, n, clock), steps + more).Some? && forall i :: 0 <= i < |more| ==> !more[i].Enter?
    ensures var before := After(Initial(wait, n, clock), steps);
            var s := After(Initial(wait, n, clock), steps + more).value;
            && before.Some? && |more| + Work(s.threads) == Work(before.value.threads) <= 2 * n
            && ((forall a :: Enabled(s, a) ==> a.Enter?) ==>
                forall t :: 0 <= t < |s.threads| ==> s.threads[t].Idle? || s.threads[t].Returned?)
    decreases |more|
  {
    hide Invariant, Enabled;
    var init, all := Initial(wait, n, clock), steps + more;
    if more == [] {
      assert all == steps;
      ThreadsStay(init, steps);
      WorkIsBounded(After(init, steps).value.threads);
    } else {
      assert all[..|all| - 1] == steps + more[..|more| - 1] && all[|all| - 1] == more[|more| - 1];
      EveryDoReturns(wait, n, clock, steps, more[..|more| - 1]);
      RunKeepsInvariant(wait, n, clock, all[..|all| - 1]);
      StepDoesWork(After(init, all[..|all| - 1]).value, all[|all| - 1]);
    }
    var s := After(init, all).value;
    hide After;
    if forall a :: Enabled(s, a) ==> a.Enter? {
      forall t | 0 <= t < |s.threads|
        ensures s.threads[t].Idle? || s.threads[t].Returned?
      {
        if !s.threads[t].Idle? && !s.threads[t].Returned? {
          var a := NoDeadlock(wait, n, clock, all, t);
          assert false;
        }
      }
    }
  }

  lemma {:induction false} ThreadsStay(init: State, steps: seq<Step>)
    ensures After(init, steps).Some? ==> |After(init, steps).value.threads| == |init.threads|
  {
    if steps != [] {
      ThreadsStay(init, steps[..|steps| - 1]);
    }
  }
}
