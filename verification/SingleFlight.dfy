/**
 The singleflight protocol of the DNS resolver (`DnsResolver::cached`, src/dns/mod.rs, and
 `Flight`, src/dns/cache.rs) as a state machine. Every lock section is one step, the two
 halves of `Flight::complete` are two, and steps of any number of threads interleave freely.
 A leader is never cancelled between two of its steps.
 */
module SingleFlight {
  import opened Basics

  type Key = string
  type Thread = nat
  type FlightId = nat

  /** What a load yields, and what callers get: a value or an error message. */
  datatype Outcome = Value(text: string) | Failure(text: string)

  datatype Pc =
    | Idle
    | Missed(key: Key)                                            // not in the cache
    | Leading(key: Key, flight: FlightId)                         // load in progress
    | Loaded(key: Key, flight: FlightId, outcome: Outcome)        // load done and cached
    | Published(key: Key, flight: FlightId, outcome: Outcome)     // result stored in the flight
    | Notified(key: Key, flight: FlightId, outcome: Outcome)      // waiters notified
    | Following(key: Key, flight: FlightId)                       // at the head of the wait loop
    | Registered(key: Key, flight: FlightId, late: bool)          // holds a `Notified` future
    | Waiting(key: Key, flight: FlightId, late: bool)             // found no result: awaits it
    | Returned(key: Key, from: Option<FlightId>, outcome: Outcome)

  /**
   `flights` is the table. The rest describes flight objects: their results, whether their
   waiters were notified, and, for the proof, the leader and key each was created by.
   */
  datatype State = State(
    flights: map<Key, FlightId>, threads: map<Thread, Pc>, count: nat,
    results: map<FlightId, Outcome>, notified: set<FlightId>,
    leader: map<FlightId, Thread>, keyOf: map<FlightId, Key>)
  {
    function At(t: Thread): Pc { if t in threads then threads[t] else Idle }

    function Go(t: Thread, pc: Pc): State { this.(threads := threads[t := pc]) }
  }

  const Start := State(map[], map[], 0, map[], {}, map[], map[])

  datatype Step =
    | CacheHit(t: Thread, key: Key, outcome: Outcome)
    | CacheMiss(t: Thread, key: Key)
    | Join(t: Thread)
    | FinishLoad(t: Thread, outcome: Outcome)
    | Publish(t: Thread)
    | Notify(t: Thread)
    | Unlist(t: Thread)
    | Register(t: Thread)
    | Check(t: Thread)
    | Wake(t: Thread)
    | Leave(t: Thread)

  /**
   A `Notified` future created before `notify_waiters` is woken by it; one created afterwards
   (`late`) is not.
   */
  predicate Enabled(s: State, step: Step) {
    var pc := s.At(step.t);
    match step
    case CacheHit(_, _, outcome) => pc.Idle? && outcome.Value?
    case CacheMiss(_, _) => pc.Idle?
    case Join(_) => pc.Missed?
    case FinishLoad(_, _) => pc.Leading?
    case Publish(_) => pc.Loaded?
    case Notify(_) => pc.Published?
    case Unlist(_) => pc.Notified?
    case Register(_) => pc.Following?
    case Check(_) => pc.Registered?
    case Wake(_) => pc.Waiting? && !pc.late && pc.flight in s.notified
    case Leave(_) => pc.Returned?
  }

  function Next(s: State, step: Step): State
    requires Enabled(s, step)
  {
    var t, pc := step.t, s.At(step.t);
    match step
    case CacheHit(_, key, outcome) => s.Go(t, Returned(key, None, outcome))
    case CacheMiss(_, key) => s.Go(t, Missed(key))
    case Join(_) =>
      if pc.key in s.flights then s.Go(t, Following(pc.key, s.flights[pc.key]))
      else s.Go(t, Leading(pc.key, s.count))
            .(flights := s.flights[pc.key := s.count], count := s.count + 1,
              leader := s.leader[s.count := t], keyOf := s.keyOf[s.count := pc.key])
    case FinishLoad(_, outcome) => s.Go(t, Loaded(pc.key, pc.flight, outcome))
    case Publish(_) =>
      s.Go(t, Published(pc.key, pc.flight, pc.outcome)).(results := s.results[pc.flight := pc.outcome])
    case Notify(_) =>
      s.Go(t, Notified(pc.key, pc.flight, pc.outcome)).(notified := s.notified + {pc.flight})
    case Unlist(_) =>
      s.Go(t, Returned(pc.key, Some(pc.flight), pc.outcome)).(flights := s.flights - {pc.key})
    case Register(_) => s.Go(t, Registered(pc.key, pc.flight, pc.flight in s.notified))
    case Check(_) =>
      if pc.flight in s.results then s.Go(t, Returned(pc.key, Some(pc.flight), s.results[pc.flight]))
      else s.Go(t, Waiting(pc.key, pc.flight, pc.late))
    case Wake(_) => s.Go(t, Following(pc.key, pc.flight))
    case Leave(_) => s.Go(t, Idle)
  }

  ghost predicate Goes(s: State, step: Step, s': State) {
    Enabled(s, step) && s' == Next(s, step)
  }

  /** A run and the states it goes through. */
  ghost predicate IsRun(states: seq<State>, steps: seq<Step>) {
    && |states| == |steps| + 1
    && states[0] == Start
    && forall i :: 0 <= i < |steps| ==> Goes(states[i], steps[i], states[i + 1])
  }

  // ---------------------------------------------------------------- the invariant

  predicate Leads(pc: Pc, key: Key, flight: FlightId) {
    (pc.Leading? || pc.Loaded? || pc.Published? || pc.Notified?) && pc.key == key && pc.flight == flight
  }

  /** The flight is listed under the key, with `t` as its leader. */
  ghost predicate Owns(s: State, t: Thread, key: Key, flight: FlightId) {
    && key in s.flights && s.flights[key] == flight
    && flight in s.leader && s.leader[flight] == t && flight in s.keyOf && s.keyOf[flight] == key
  }

  /** The flight was created for the key. */
  ghost predicate For(s: State, flight: FlightId, key: Key) {
    flight < s.count && flight in s.keyOf && s.keyOf[flight] == key
  }

  ghost predicate ThreadOk(s: State, t: Thread, pc: Pc) {
    match pc
    case Leading(k, f) => Owns(s, t, k, f) && f !in s.results
    case Loaded(k, f, _) => Owns(s, t, k, f) && f !in s.results
    case Published(k, f, o) => Owns(s, t, k, f) && f in s.results && s.results[f] == o && f !in s.notified
    case Notified(k, f, o) => Owns(s, t, k, f) && f in s.results && s.results[f] == o && f in s.notified
    case Following(k, f) => For(s, f, k)
    case Registered(k, f, late) => For(s, f, k) && (late ==> f in s.notified)
    case Waiting(k, f, late) => For(s, f, k) && !late
    case Returned(k, f, o) => f.Some? ==> For(s, f.value, k) && f.value in s.results && s.results[f.value] == o
    case _ => true
  }

  /** A flight that is not listed any more has notified its waiters; a listed one has a leader at work. */
  ghost predicate FlightOk(s: State, f: FlightId) {
    && (f in s.notified ==> f in s.results)
    && (f in s.results || f in s.leader || f in s.keyOf ==> f < s.count)
    && (f < s.count ==>
          && f in s.keyOf
          && (f in s.notified || (s.keyOf[f] in s.flights && s.flights[s.keyOf[f]] == f)))
  }

  ghost predicate KeyOk(s: State, key: Key) {
    key in s.flights ==>
      var f := s.flights[key];
      f < s.count && f in s.leader && f in s.keyOf && s.keyOf[f] == key && Leads(s.At(s.leader[f]), key, f)
  }

  ghost predicate Inv(s: State) {
    && (forall t :: t in s.threads ==> ThreadOk(s, t, s.threads[t]))
    && (forall f: FlightId :: FlightOk(s, f))
    && (forall key :: KeyOk(s, key))
  }

  /** Only `t` moves. */
  ghost predicate OnlyMoves(s: State, s': State, t: Thread) {
    && (forall u :: u != t ==> s'.At(u) == s.At(u))
    && (forall u :: u in s'.threads ==> u == t || u in s.threads)
  }

  /** What `t` may do to flight objects: it adds a result and a notification to its own flight. */
  ghost predicate OwnFlightsOnly(s: State, s': State, t: Thread) {
    && (forall f :: f in s.results ==> f in s'.results && s'.results[f] == s.results[f])
    && (forall f :: f in s'.results && f !in s.results ==> f in s.leader && s.leader[f] == t)
    && s.notified <= s'.notified
    && (forall f :: f in s'.notified && f !in s.notified ==> f in s.leader && s.leader[f] == t)
  }

  /** What `t` may do to the table: list a new flight, or unlist its own. */
  ghost predicate OwnListingsOnly(s: State, s': State, t: Thread) {
    && s.count <= s'.count
    && (forall f :: f in s.leader ==> f in s'.leader && s'.leader[f] == s.leader[f])
    && (forall f :: f in s.keyOf ==> f in s'.keyOf && s'.keyOf[f] == s.keyOf[f])
    && (forall k :: k in s.flights && s.flights[k] in s.leader && s.leader[s.flights[k]] != t ==>
          k in s'.flights && s'.flights[k] == s.flights[k])
  }

  ghost predicate Harmless(s: State, s': State, t: Thread) {
    OnlyMoves(s, s', t) && OwnFlightsOnly(s, s', t) && OwnListingsOnly(s, s', t)
  }

  lemma OthersKeep(s: State, s': State, t: Thread)
    requires Inv(s) && Harmless(s, s', t)
    ensures forall u :: u in s'.threads && u != t ==> ThreadOk(s', u, s'.threads[u])
  {
    forall u | u in s'.threads && u != t ensures ThreadOk(s', u, s'.threads[u]) {
      assert s'.At(u) == s.At(u);
      assert ThreadOk(s, u, s.threads[u]);
    }
  }

  lemma StepFlightObjects(s: State, step: Step)
    requires Inv(s) && Enabled(s, step)
    ensures OwnFlightsOnly(s, Next(s, step), step.t)
  {
    hide KeyOk, FlightOk;
    assert step.t in s.threads ==> ThreadOk(s, step.t, s.At(step.t));
  }

  lemma StepListings(s: State, step: Step)
    requires Inv(s) && Enabled(s, step)
    ensures OwnListingsOnly(s, Next(s, step), step.t)
  {
    hide KeyOk;
    assert step.t in s.threads ==> ThreadOk(s, step.t, s.At(step.t));
    assert FlightOk(s, s.count);
  }

  lemma StepHarmless(s: State, step: Step)
    requires Inv(s) && Enabled(s, step)
    ensures Harmless(s, Next(s, step), step.t)
  {
    hide Inv;
    StepFlightObjects(s, step);
    StepListings(s, step);
  }

  lemma StepThread(s: State, step: Step)
    requires Inv(s) && Enabled(s, step)
    ensures ThreadOk(Next(s, step), step.t, Next(s, step).At(step.t))
  {
    var pc := s.At(step.t);
    assert step.t in s.threads ==> ThreadOk(s, step.t, pc);
    match step
    case Join(_) =>
      assert KeyOk(s, pc.key);
      assert FlightOk(s, s.count);
    case Publish(_) =>
      assert FlightOk(s, pc.flight);
    case Check(_) =>
      assert FlightOk(s, pc.flight);
    case Unlist(_) =>
      assert FlightOk(s, pc.flight);
    case _ =>
  }

  lemma StepFlights(s: State, step: Step, f: FlightId)
    requires Inv(s) && Enabled(s, step)
    ensures FlightOk(Next(s, step), f)
  {
    var pc := s.At(step.t);
    assert step.t in s.threads ==> ThreadOk(s, step.t, pc);
    assert FlightOk(s, f);
    match step
    case Publish(_) =>
      assert FlightOk(s, pc.flight) && KeyOk(s, pc.key);
    case _ =>
  }

  lemma StepKeys(s: State, step: Step, key: Key)
    requires Inv(s) && Enabled(s, step)
    ensures KeyOk(Next(s, step), key)
  {
    var pc, s' := s.At(step.t), Next(s, step);
    assert step.t in s.threads ==> ThreadOk(s, step.t, pc);
    assert KeyOk(s, key);
    if key in s'.flights && key in s.flights {
      var l := s.leader[s.flights[key]];
      if l == step.t {
        assert Leads(pc, key, s.flights[key]);
      }
    }
  }

  lemma StepKeepsInv(s: State, step: Step)
    requires Inv(s) && Enabled(s, step)
    ensures Inv(Next(s, step))
  {
    hide ThreadOk, FlightOk, KeyOk, Harmless;
    StepHarmless(s, step);
    OthersKeep(s, Next(s, step), step.t);
    StepThread(s, step);
    forall f: FlightId ensures FlightOk(Next(s, step), f) {
      StepFlights(s, step, f);
    }
    forall key ensures KeyOk(Next(s, step), key) {
      StepKeys(s, step, key);
    }
  }

  lemma StartInv()
    ensures Inv(Start)
  {
  }

  lemma {:induction false} RunInv(states: seq<State>, steps: seq<Step>, n: nat)
    requires IsRun(states, steps) && n < |states|
    ensures Inv(states[n])
  {
    hide Inv, Next, Enabled;
    if n == 0 {
      StartInv();
    } else {
      RunInv(states, steps, n - 1);
      assert Goes(states[n - 1], steps[n - 1], states[n - 1 + 1]);
      StepKeepsInv(states[n - 1], steps[n - 1]);
    }
  }

  lemma RunHarmless(states: seq<State>, steps: seq<Step>, n: nat)
    requires IsRun(states, steps) && n < |steps|
    ensures Enabled(states[n], steps[n]) && states[n + 1] == Next(states[n], steps[n])
    ensures Harmless(states[n], states[n + 1], steps[n].t)
  {
    hide Inv, Next, Enabled, Harmless;
    RunInv(states, steps, n);
    assert Goes(states[n], steps[n], states[n + 1]);
    StepHarmless(states[n], steps[n]);
  }

  lemma RunThread(states: seq<State>, steps: seq<Step>, n: nat, t: Thread)
    requires IsRun(states, steps) && n < |states|
    ensures ThreadOk(states[n], t, states[n].At(t))
  {
    hide IsRun;
    RunInv(states, steps, n);
    if t in states[n].threads { assert ThreadOk(states[n], t, states[n].threads[t]); }
  }

  // ---------------------------------------------------------------- what the protocol promises

  /** At most one load per key runs at a time. */
  lemma OneLoadPerKey(states: seq<State>, steps: seq<Step>, n: nat, t: Thread, u: Thread)
    requires IsRun(states, steps) && n < |states|
    ensures
      var s := states[n];
      s.At(t).Leading? && s.At(u).Leading? && s.At(t).key == s.At(u).key ==> t == u
  {
    hide IsRun;
    RunThread(states, steps, n, t);
    RunThread(states, steps, n, u);
  }

  /** Step `i` finished the load of the flight, which its leader leads for the key. */
  ghost predicate LoadedAt(states: seq<State>, steps: seq<Step>, i: nat, key: Key, f: FlightId, outcome: Outcome)
    requires IsRun(states, steps)
  {
    i < |steps| && steps[i].FinishLoad? && steps[i].outcome == outcome && states[i].At(steps[i].t) == Leading(key, f)
  }

  predicate HasOutcome(pc: Pc) {
    pc.Loaded? || pc.Published? || pc.Notified?
  }

  lemma OutcomeFrom(s: State, step: Step, t: Thread)
    requires Enabled(s, step) && HasOutcome(Next(s, step).At(t))
    ensures
      var pc, pc' := s.At(t), Next(s, step).At(t);
      || (step == FinishLoad(t, pc'.outcome) && pc == Leading(pc'.key, pc'.flight))
      || (HasOutcome(pc) && pc.key == pc'.key && pc.flight == pc'.flight && pc.outcome == pc'.outcome)
  {
  }

  /** The outcome a leader carries is the one it loaded. */
  lemma {:induction false} LeaderLoaded(states: seq<State>, steps: seq<Step>, n: nat, t: Thread) returns (i: nat)
    requires IsRun(states, steps) && n < |states| && HasOutcome(states[n].At(t))
    ensures i < n && LoadedAt(states, steps, i, states[n].At(t).key, states[n].At(t).flight, states[n].At(t).outcome)
    decreases n
  {
    hide Next, Enabled, Harmless;
    i := n;
    if n > 0 {
      RunHarmless(states, steps, n - 1);
      OutcomeFrom(states[n - 1], steps[n - 1], t);
      if LoadedAt(states, steps, n - 1, states[n].At(t).key, states[n].At(t).flight, states[n].At(t).outcome) {
        i := n - 1;
      } else {
        i := LeaderLoaded(states, steps, n - 1, t);
      }
    }
  }

  /** A stored result is what the flight's leader loaded for the flight's key. */
  lemma {:induction false} ResultLoaded(states: seq<State>, steps: seq<Step>, n: nat, f: FlightId) returns (i: nat)
    requires IsRun(states, steps) && n < |states| && f in states[n].results
    ensures i < n && f in states[n].keyOf && LoadedAt(states, steps, i, states[n].keyOf[f], f, states[n].results[f])
    decreases n
  {
    i := n;
    if n > 0 {
      var m := n - 1;
      RunHarmless(states, steps, m);
      if f in states[m].results {
        i := ResultLoaded(states, steps, m, f);
      } else {
        RunThread(states, steps, m, steps[m].t);
        i := LeaderLoaded(states, steps, m, steps[m].t);
      }
    }
  }

  /**
   Whoever returns from a flight, leader or follower, returns what the load of the flight's leader
   gave, and the flight was created for the returner's key.
   */
  lemma ReturnedIsLoaded(states: seq<State>, steps: seq<Step>, n: nat, t: Thread)
    requires IsRun(states, steps) && n < |states| && states[n].At(t).Returned? && states[n].At(t).from.Some?
    ensures
      var pc := states[n].At(t);
      exists i: nat :: i < n && LoadedAt(states, steps, i, pc.key, pc.from.value, pc.outcome)
  {
    hide IsRun;
    RunThread(states, steps, n, t);
    var i := ResultLoaded(states, steps, n, states[n].At(t).from.value);
  }

  /** Nobody leads the flight to its load any more. */
  ghost predicate NotLoading(s: State, f: FlightId) {
    f < s.count && forall t :: t in s.threads ==> !(s.threads[t].Leading? && s.threads[t].flight == f)
  }

  lemma StepNotLoading(s: State, step: Step, f: FlightId)
    requires Enabled(s, step) && NotLoading(s, f)
    ensures NotLoading(Next(s, step), f)
  {
  }

  lemma {:induction false} NotLoadingAgain(states: seq<State>, steps: seq<Step>, i: nat, j: nat, f: FlightId)
    requires IsRun(states, steps) && i <= j < |states| && NotLoading(states[i], f)
    ensures NotLoading(states[j], f)
    decreases j
  {
    hide Next, Enabled, Harmless, NotLoading;
    if i < j {
      NotLoadingAgain(states, steps, i, j - 1, f);
      RunHarmless(states, steps, j - 1);
      StepNotLoading(states[j - 1], steps[j - 1], f);
    }
  }

  lemma LoadEnds(states: seq<State>, steps: seq<Step>, i: nat, key: Key, f: FlightId, outcome: Outcome)
    requires IsRun(states, steps) && LoadedAt(states, steps, i, key, f, outcome)
    ensures i + 1 < |states| && NotLoading(states[i + 1], f)
  {
    RunHarmless(states, steps, i);
    RunThread(states, steps, i, steps[i].t);
    var s' := states[i + 1];
    forall u | u in s'.threads ensures !(s'.threads[u].Leading? && s'.threads[u].flight == f) {
      RunThread(states, steps, i, u);
    }
    RunInv(states, steps, i);
    assert FlightOk(states[i], f);
  }

  /** Every flight loads at most once. */
  lemma LoadedOnce(states: seq<State>, steps: seq<Step>, i: nat, j: nat, key: Key, key': Key, f: FlightId, o: Outcome,
    o': Outcome)
    requires IsRun(states, steps) && LoadedAt(states, steps, i, key, f, o) && LoadedAt(states, steps, j, key', f, o')
    ensures i == j
  {
    hide Next, Enabled;
    if i < j {
      LoadEnds(states, steps, i, key, f, o);
      NotLoadingAgain(states, steps, i + 1, j, f);
    } else if j < i {
      LoadEnds(states, steps, j, key', f, o');
      NotLoadingAgain(states, steps, j + 1, i, f);
    }
  }

  /** All who return from one flight, at whatever times, return the same outcome for the same key. */
  lemma SameOutcome(states: seq<State>, steps: seq<Step>, m: nat, n: nat, t: Thread, u: Thread)
    requires IsRun(states, steps) && m < |states| && n < |states|
    requires states[m].At(t).Returned? && states[n].At(u).Returned?
    requires states[m].At(t).from.Some? && states[m].At(t).from == states[n].At(u).from
    ensures states[m].At(t).outcome == states[n].At(u).outcome && states[m].At(t).key == states[n].At(u).key
  {
    hide IsRun;
    var pc, pc' := states[m].At(t), states[n].At(u);
    ReturnedIsLoaded(states, steps, m, t);
    ReturnedIsLoaded(states, steps, n, u);
    var i: nat :| i < m && LoadedAt(states, steps, i, pc.key, pc.from.value, pc.outcome);
    var j: nat :| j < n && LoadedAt(states, steps, j, pc'.key, pc'.from.value, pc'.outcome);
    LoadedOnce(states, steps, i, j, pc.key, pc'.key, pc.from.value, pc.outcome, pc'.outcome);
  }

  /** A stored result never changes. */
  lemma {:induction false} ResultIsFinal(states: seq<State>, steps: seq<Step>, m: nat, n: nat, f: FlightId)
    requires IsRun(states, steps) && m <= n < |states| && f in states[m].results
    ensures f in states[n].results && states[n].results[f] == states[m].results[f]
    decreases n
  {
    hide Next, Enabled;
    if m < n {
      ResultIsFinal(states, steps, m, n - 1, f);
      RunHarmless(states, steps, n - 1);
    }
  }

  /** The table lists only keys whose leader has not finished. */
  lemma ListedHasLeader(states: seq<State>, steps: seq<Step>, n: nat, key: Key)
    requires IsRun(states, steps) && n < |states|
    ensures
      var s := states[n];
      key in s.flights ==> s.flights[key] in s.leader && Leads(s.At(s.leader[s.flights[key]]), key, s.flights[key])
  {
    hide IsRun;
    RunInv(states, steps, n);
    assert KeyOk(states[n], key);
  }

  predicate Follows(pc: Pc) {
    pc.Following? || pc.Registered? || pc.Waiting?
  }

  /** The step a follower takes next. */
  function FollowerStep(s: State, t: Thread): Step
    requires Follows(s.At(t))
  {
    var pc := s.At(t);
    if pc.Following? then Register(t) else if pc.Registered? then Check(t) else Wake(t)
  }

  function StepsLeft(pc: Pc): nat {
    if pc.Waiting? then 3 else if pc.Following? then 2 else if pc.Registered? then 1 else 0
  }

  /**
   No follower stays blocked: once its flight has notified (and every flight that is no longer
   listed has), the follower's next step is enabled, and each such step brings it closer to
   returning the flight's result.
   */
  lemma FollowerNeverStuck(states: seq<State>, steps: seq<Step>, n: nat, t: Thread)
    requires IsRun(states, steps) && n < |states| && Follows(states[n].At(t))
    ensures
      var s := states[n];
      var f := s.At(t).flight;
      && (f in s.notified || (f in s.keyOf && s.keyOf[f] in s.flights && s.flights[s.keyOf[f]] == f))
      && (f in s.notified ==>
            && Enabled(s, FollowerStep(s, t))
            && StepsLeft(Next(s, FollowerStep(s, t)).At(t)) < StepsLeft(s.At(t))
            && (s.At(t).Registered? ==>
                  f in s.results && Next(s, FollowerStep(s, t)).At(t) == Returned(s.At(t).key, Some(f), s.results[f])))
  {
    hide IsRun;
    RunInv(states, steps, n);
    RunThread(states, steps, n, t);
    assert FlightOk(states[n], states[n].At(t).flight);
  }
}
