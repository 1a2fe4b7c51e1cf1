/**
 dualStackDialContext: two racers, one for IPv4 and one for IPv6, and one collector, over every
 interleaving of their steps.
 */
module DualStack {
  import opened Wrappers

  type Conn = nat
  type Error = nat

  // What a racer offers on the channel: a connection or an error, and whether the name resolved.
  datatype Result = Result(conn: Option<Conn>, error: Option<Error>, resolved: bool)

  datatype Racer =
    | Resolving
    | Dialing
    | Offering(res: Result)    // blocked in the select
    | Delivered(res: Result)   // the collector has received it
    | Dropped(res: Result)     // `returned` was closed first
  {
    predicate Ended() {
      Delivered? || Dropped?
    }

    function Held(): Option<Conn> {
      if Offering? || Delivered? || Dropped? then res.conn else None
    }

    predicate Failed() {
      Delivered? && res.error.Some?
    }
  }

  datatype Which = V4 | V6

  datatype Outcome = Connected(conn: Conn) | Refused(error: Error)

  datatype State = State(
    v4: Racer, v6: Racer,
    primary: Option<Result>, fallback: Option<Result>,  // None: not done
    outcome: Option<Outcome>,  // what the collector returns
    returned: bool,            // whether the channel of that name is closed
    dialed: set<Conn>, closed: set<Conn>)
  {
    function Get(w: Which): Racer {
      if w == V4 then v4 else v6
    }

    function Set(w: Which, r: Racer): State {
      if w == V4 then this.(v4 := r) else this.(v6 := r)
    }
  }

  const INITIAL := State(Resolving, Resolving, None, None, None, false, {}, {})

  datatype Step =
    | ResolveFails(w: Which, e: Error)
    | Resolves(w: Which)
    | DialFails(w: Which, e: Error)
    | Dials(w: Which, c: Conn)
    | Receive(w: Which)   // the racer sends, the collector receives
    | CloseReturned       // the deferred close
    | Drop(w: Which)      // the racer finds `returned` closed

  predicate Enabled(s: State, a: Step) {
    match a
    case ResolveFails(w, _) => s.Get(w).Resolving?
    case Resolves(w) => s.Get(w).Resolving?
    case DialFails(w, _) => s.Get(w).Dialing?
    case Dials(w, c) => s.Get(w).Dialing? && c !in s.dialed
    case Receive(w) => s.Get(w).Offering? && s.outcome == None
    case CloseReturned => s.outcome.Some? && !s.returned
    case Drop(w) => s.Get(w).Offering? && s.returned
  }

  function Apply(s: State, a: Step): State
    requires Enabled(s, a)
  {
    match a
    case ResolveFails(w, e) => s.Set(w, Offering(Result(None, Some(e), false)))
    case Resolves(w) => s.Set(w, Dialing)
    case DialFails(w, e) => s.Set(w, Offering(Result(None, Some(e), true)))
    case Dials(w, c) => s.Set(w, Offering(Result(Some(c), None, true))).(dialed := s.dialed + {c})
    case Receive(w) => Collect(s.Set(w, Delivered(s.Get(w).res)), w, s.Get(w).res)
    case CloseReturned => s.(returned := true)
    case Drop(w) =>
      var res := s.Get(w).res;
      s.Set(w, Dropped(res)).(closed := if res.conn.Some? then s.closed + {res.conn.value} else s.closed)
  }

  // The body of the collector's loop, for one result
  function Collect(s: State, w: Which, res: Result): State {
    if res.error == None then
      if res.conn.Some? then s.(outcome := Some(Connected(res.conn.value))) else s
    else
      var s1 := if w == V4 then s.(primary := Some(res)) else s.(fallback := Some(res));
      if s1.primary.Some? && s1.fallback.Some? then
        var p, f := s1.primary.value, s1.fallback.value;
        var chosen := if p.resolved then p.error else if f.resolved then f.error else p.error;
        if chosen.Some? then s1.(outcome := Some(Refused(chosen.value))) else s1
      else s1
  }

  // Runs: the state after the steps, if each was possible
  function After(steps: seq<Step>): Option<State> {
    if steps == [] then Some(INITIAL)
    else
      var before := After(steps[..|steps| - 1]);
      var a := steps[|steps| - 1];
      if before.Some? && Enabled(before.value, a) then Some(Apply(before.value, a)) else None
  }

  // ----- what every step keeps -----

  ghost predicate ResultOk(res: Result, dialed: set<Conn>) {
    && (res.conn.Some? <==> res.error == None)
    && (res.conn.Some? ==> res.resolved && res.conn.value in dialed)
  }

  // The error to report when both have failed: of the first, in the order IPv4, IPv6, whose name
  // resolved; of IPv4 if none did.
  function Reported(p: Result, f: Result): Option<Error> {
    if !p.resolved && f.resolved then f.error else p.error
  }

  ghost predicate RacerOk(s: State, w: Which) {
    var r := s.Get(w);
    && (r.Offering? || r.Ended() ==> ResultOk(r.res, s.dialed))
    && (r.Dropped? ==> s.returned && (r.res.conn.Some? ==> r.res.conn.value in s.closed))
    && (r.Delivered? && r.res.conn.Some? ==> s.outcome == Some(Connected(r.res.conn.value)))
    && (if w == V4 then s.primary else s.fallback) == (if r.Failed() then Some(r.res) else None)
  }

  ghost predicate Invariant(s: State) {
    && RacerOk(s, V4) && RacerOk(s, V6)
    && (s.v4.Held().Some? ==> s.v4.Held() != s.v6.Held())
    && (forall c :: c in s.dialed ==> s.v4.Held() == Some(c) || s.v6.Held() == Some(c))
    && (forall c :: c in s.closed ==>
       s.v4 == Dropped(Result(Some(c), None, true)) || s.v6 == Dropped(Result(Some(c), None, true)))
    && (s.returned ==> s.outcome.Some?)
    && (s.outcome == None ==> !(s.v4.Failed() && s.v6.Failed()))
    && match s.outcome {
         case None => true
         case Some(Connected(c)) => s.v4 == Delivered(Result(Some(c), None, true))
           || s.v6 == Delivered(Result(Some(c), None, true))
         case Some(Refused(e)) => s.v4.Failed() && s.v6.Failed() && Some(e) == Reported(s.v4.res, s.v6.res)
       }
  }

  lemma RacerKeepsInvariant(s: State, a: Step)
    requires Invariant(s) && Enabled(s, a) && !a.Receive? && !a.Drop? && !a.Dials?
    ensures Invariant(Apply(s, a))
  {
  }

  lemma DialsKeepsInvariant(s: State, w: Which, c: Conn)
    requires Invariant(s) && Enabled(s, Dials(w, c))
    ensures Invariant(Apply(s, Dials(w, c)))
  {
  }

  lemma ReceiveKeepsInvariant(s: State, w: Which)
    requires Invariant(s) && Enabled(s, Receive(w))
    ensures Invariant(Apply(s, Receive(w)))
  {
  }

  lemma DropKeepsInvariant(s: State, w: Which)
    requires Invariant(s) && Enabled(s, Drop(w))
    ensures Invariant(Apply(s, Drop(w)))
  {
  }

  lemma StepKeepsInvariant(s: State, a: Step)
    requires Invariant(s) && Enabled(s, a)
    ensures Invariant(Apply(s, a))
  {
    hide Invariant, Enabled, Apply;
    match a
    case Dials(w, c) => DialsKeepsInvariant(s, w, c);
    case Receive(w) => ReceiveKeepsInvariant(s, w);
    case Drop(w) => DropKeepsInvariant(s, w);
    case ResolveFails(_, _) => RacerKeepsInvariant(s, a);
    case Resolves(_) => RacerKeepsInvariant(s, a);
    case DialFails(_, _) => RacerKeepsInvariant(s, a);
    case CloseReturned => RacerKeepsInvariant(s, a);
  }

  lemma {:induction false} RunKeepsInvariant(steps: seq<Step>)
    ensures After(steps).Some? ==> Invariant(After(steps).value)
  {
    hide Invariant, Apply, Enabled;
    if steps == [] {
      InitialHolds();
    } else {
      RunKeepsInvariant(steps[..|steps| - 1]);
      var before := After(steps[..|steps| - 1]);
      if before.Some? && Enabled(before.value, steps[|steps| - 1]) {
        StepKeepsInvariant(before.value, steps[|steps| - 1]);
      }
    }
  }

  lemma InitialHolds()
    ensures Invariant(INITIAL)
  {
  }

  // ----- what the caller relies on -----

  // In every interleaving: an error comes back only when both racers have failed, and it is the one
  // to report; a connection that comes back was opened and is not closed; a racer closes only its own
  // connection, and only after the return; no connection opened is ever out of reach: it is the one
  // returned, or closed, or still with a racer that is about to deliver or drop it.
  lemma EveryRunIsSafe(steps: seq<Step>)
    requires After(steps).Some?
    ensures var s := After(steps).value;
            s.outcome.Some? && s.outcome.value.Refused? ==>
              s.v4.Failed() && s.v6.Failed() && Some(s.outcome.value.error) == Reported(s.v4.res, s.v6.res)
    ensures var s := After(steps).value;
            s.outcome.Some? && s.outcome.value.Connected? ==> s.outcome.value.conn in s.dialed - s.closed
    ensures var s := After(steps).value;
            s.closed <= s.dialed && (s.closed != {} ==> s.returned)
    ensures var s := After(steps).value;
            forall c :: c in s.dialed - s.closed ==>
              s.outcome == Some(Connected(c)) || (exists w :: s.Get(w).Offering? && s.Get(w).res.conn == Some(c))
  {
    RunKeepsInvariant(steps);
    var s := After(steps).value;
    forall c | c in s.dialed - s.closed
      ensures s.outcome == Some(Connected(c)) || (exists w :: s.Get(w).Offering? && s.Get(w).res.conn == Some(c))
    {
      var w := if s.v4.Held() == Some(c) then V4 else V6;
      assert s.Get(w).Held() == Some(c);
    }
  }

  // When nothing can happen any more, the call has returned, and every connection opened is either
  // the one returned or closed.
  lemma NothingIsLeaked(steps: seq<Step>)
    requires After(steps).Some? && forall a :: !Enabled(After(steps).value, a)
    ensures var s := After(steps).value;
            s.outcome.Some? && s.v4.Ended() && s.v6.Ended()
            && s.dialed == s.closed + (if s.outcome.value.Connected? then {s.outcome.value.conn} else {})
  {
    RunKeepsInvariant(steps);
    var s := After(steps).value;
    NotEnabled(s, CloseReturned);
    forall w: Which
      ensures s.Get(w).Ended()
    {
      NotEnabled(s, Resolves(w));
      NotEnabled(s, DialFails(w, 0));
      NotEnabled(s, Receive(w));
      NotEnabled(s, Drop(w));
    }
    assert s.Get(V4).Ended() && s.Get(V6).Ended();
  }

  lemma NotEnabled(s: State, a: Step)
    requires forall a :: !Enabled(s, a)
    ensures !Enabled(s, a)
  {
  }

  function Left(r: Racer): nat {
    match r
    case Resolving => 3
    case Dialing => 2
    case Offering(_) => 1
    case Delivered(_) => 0
    case Dropped(_) => 0
  }

  function Measure(s: State): nat {
    Left(s.v4) + Left(s.v6) + if s.returned then 0 else 1
  }

  lemma EveryStepCounts(s: State, a: Step)
    requires Enabled(s, a)
    ensures Measure(Apply(s, a)) < Measure(s)
  {
  }

  // Every run comes to that point: no run has more than seven steps.
  lemma {:induction false} RunsAreShort(steps: seq<Step>)
    ensures After(steps).Some? ==> |steps| + Measure(After(steps).value) <= 7
  {
    hide Measure, Apply, Enabled;
    if steps == [] {
      InitialMeasure();
    } else {
      RunsAreShort(steps[..|steps| - 1]);
      var before := After(steps[..|steps| - 1]);
      if before.Some? && Enabled(before.value, steps[|steps| - 1]) {
        EveryStepCounts(before.value, steps[|steps| - 1]);
      }
    }
  }

  lemma InitialMeasure()
    ensures Measure(INITIAL) == 7
  {
  }
}
