/**
 By how much the request budget and the concurrency cap of an XMUX pool (src/xmux.rs) can be
 exceeded: callers that found a pool usable charge it later, without looking at it again.
 */
module XmuxOvershoot {
  import opened Basics
  import opened Xmux

  /** The thread has entered `pick`, found the pool usable or created it, and not yet charged it. */
  predicate Bound(pc: Pc, p: PoolId) {
    (pc.Scanning? && p in pc.active) || Picked(pc, p)
  }

  /** The thread has left the scan inside `pick` with the pool, and not yet charged it. */
  predicate Picked(pc: Pc, p: PoolId) {
    (pc.Chosen? || pc.Uncharged?) && pc.pool == p
  }

  datatype Kind =
    | AnyBound          // callers bound to the pool
    | BoundConnecting   // those that will also take a lease
    | OnlyPicked        // those that are past the scan

  predicate Counted(pc: Pc, p: PoolId, kind: Kind) {
    match kind
    case AnyBound => Bound(pc, p)
    case BoundConnecting => Bound(pc, p) && pc.forConnection
    case OnlyPicked => Picked(pc, p)
  }

  function Callers(s: State, p: PoolId, kind: Kind): set<Thread> {
    set t | t in s.threads && Counted(s.threads[t], p, kind)
  }

  /** At no point of the run are there more than `n` such callers of the pool. */
  predicate AtMost(c: Config, s: State, steps: seq<Step>, p: PoolId, kind: Kind, n: nat)
    requires IsRun(c, s, steps)
    decreases |steps|
  {
    |Callers(s, p, kind)| <= n && (steps == [] || AtMost(c, Next(c, s, steps[0]), steps[1..], p, kind, n))
  }

  ghost predicate OnlyMoves(s: State, s': State, t: Thread) {
    forall u :: u != t ==>
      (u in s'.threads <==> u in s.threads) && (u in s.threads ==> s'.threads[u] == s.threads[u])
  }

  lemma StepOnlyMoves(c: Config, s: State, step: Step)
    requires Enabled(c, s, step)
    ensures OnlyMoves(s, Next(c, s, step), step.t)
  {
  }

  function One(b: bool): int { if b then 1 else 0 }

  lemma CountMove(a: set<Thread>, a': set<Thread>, t: Thread) returns (others: nat)
    requires a' - {t} == a - {t}
    ensures |a| == others + One(t in a) && |a'| == others + One(t in a')
  {
    SizeWithout(a, t);
    SizeWithout(a', t);
    others := |a - {t}|;
  }

  lemma CallersMove(s: State, s': State, t: Thread, p: PoolId, kind: Kind)
    requires OnlyMoves(s, s', t)
    ensures Callers(s', p, kind) - {t} == Callers(s, p, kind) - {t}
  {
    hide Counted;
  }

  lemma CalledWhen(s: State, t: Thread, p: PoolId, kind: Kind)
    ensures t in Callers(s, p, kind) <==> Counted(s.At(t), p, kind)
  {
  }

  /** One step at one pool: a caller joins only while there is budget and room, and leaves by charging. */
  ghost predicate PoolStep(c: Config, s: State, s': State, t: Thread, p: PoolId)
    requires p in s.pools && p in s'.pools
  {
    var pool, pool', pc, pc' := s.pools[p], s'.pools[p], s.At(t), s'.At(t);
    && pool'.requestBudget == pool.requestBudget
    && ( || (pool'.charged == pool.charged && (Bound(pc', p) ==> Bound(pc, p) || pool.requests != Some(0)))
         || (pool'.charged == pool.charged + 1 && Bound(pc, p) && !Bound(pc', p))
         || (pool'.charged == pool.charged + 1 && pool.requests != Some(0) && !Bound(pc, p) && !Bound(pc', p)))
    && ( || pool'.running + One(Counted(pc', p, BoundConnecting)) <= pool.running + One(Counted(pc, p, BoundConnecting))
         || (c.maxConcurrency > 0 ==> pool'.running == pool.running < c.maxConcurrency))
  }

  lemma StepPool(c: Config, s: State, step: Step, p: PoolId)
    requires Enabled(c, s, step) && p in s.pools && p < s.created && Refs(s)
    ensures p in Next(c, s, step).pools && PoolStep(c, s, Next(c, s, step), step.t, p)
  {
    assert step.t in s.threads ==> RefsOk(s, s.threads[step.t]);
  }

  lemma StepNewPool(c: Config, s: State, step: Step, p: PoolId)
    requires Enabled(c, s, step) && p !in s.pools && p in Next(c, s, step).pools
    ensures
      var pool := Next(c, s, step).pools[p];
      pool.charged == 0 && pool.running == 0 && pool.requestBudget != Some(0)
  {
  }

  // ---------------------------------------------------------------- the concurrency cap

  /** Leases and the callers that may still add one. */
  ghost predicate Room(c: Config, s: State, n: nat, p: PoolId) {
    p in s.pools ==> s.pools[p].running + |Callers(s, p, BoundConnecting)| < c.maxConcurrency + n
  }

  lemma StepRoom(c: Config, s: State, step: Step, n: nat, p: PoolId)
    requires c.maxConcurrency > 0 && Inv(c, s) && Refs(s) && Enabled(c, s, step)
    requires Room(c, s, n, p) && |Callers(Next(c, s, step), p, BoundConnecting)| <= n
    ensures Room(c, Next(c, s, step), n, p)
  {
    hide Next, Enabled, Refs, Callers, Usable, HolderOk, Bound, Counted;
    var s', t := Next(c, s, step), step.t;
    StepOnlyMoves(c, s, step);
    CallersMove(s, s', t, p, BoundConnecting);
    CalledWhen(s, t, p, BoundConnecting);
    CalledWhen(s', t, p, BoundConnecting);
    var others := CountMove(Callers(s, p, BoundConnecting), Callers(s', p, BoundConnecting), t);
    if p in s.pools {
      assert Ledger(s.pools[p]);
      StepPool(c, s, step, p);
    } else if p in s'.pools {
      StepNewPool(c, s, step, p);
    }
  }

  lemma {:induction false} RunRoom(c: Config, s: State, steps: seq<Step>, n: nat, p: PoolId)
    requires c.maxConcurrency > 0 && Inv(c, s) && Refs(s) && Room(c, s, n, p)
    requires IsRun(c, s, steps) && AtMost(c, s, steps, p, BoundConnecting, n)
    ensures Room(c, After(c, s, steps), n, p)
    decreases |steps|
  {
    hide Inv, Refs, Room, Callers;
    if steps != [] {
      StepKeepsInv(c, s, steps[0]);
      StepKeepsRefs(c, s, steps[0]);
      StepRoom(c, s, steps[0], n, p);
      RunRoom(c, Next(c, s, steps[0]), steps[1..], n, p);
    }
  }

  /**
   With at most `n` connecting callers at any time that found the pool usable inside `pick` and have
   not charged it, its leases exceed the concurrency cap by less than `n`; so not at all when
   acquisition is one step.
   */
  lemma ConcurrencyBelow(c: Config, steps: seq<Step>, n: nat, p: PoolId)
    requires IsRun(c, Start, steps) && AtMost(c, Start, steps, p, BoundConnecting, n)
    requires p in After(c, Start, steps).pools
    ensures c.maxConcurrency > 0 ==> After(c, Start, steps).pools[p].running < c.maxConcurrency + n
  {
    hide Callers;
    if c.maxConcurrency > 0 {
      StartInv(c);
      assert Refs(Start);
      RunRoom(c, Start, steps, n, p);
    }
  }

  // ---------------------------------------------------------------- the request budget

  /** No request of the pool is left. */
  predicate Spent(s: State, p: PoolId) {
    p in s.pools && s.pools[p].requests == Some(0)
  }

  /** The step spends the pool's last request. */
  ghost predicate Spends(c: Config, s: State, step: Step, p: PoolId) {
    Enabled(c, s, step) && !Spent(s, p) && Spent(Next(c, s, step), p)
  }

  predicate Charges(s: State, step: Step, p: PoolId) {
    step.Charge? && s.At(step.t).Uncharged? && s.At(step.t).pool == p
  }

  /** The threads that charge the pool during the run. */
  ghost function Chargers(c: Config, s: State, steps: seq<Step>, p: PoolId): set<Thread>
    requires IsRun(c, s, steps)
    decreases |steps|
  {
    if steps == [] then {}
    else (if Charges(s, steps[0], p) then {steps[0].t} else {}) + Chargers(c, Next(c, s, steps[0]), steps[1..], p)
  }

  /** After the last request nobody joins, and only callers that had joined still charge. */
  lemma SpentStep(c: Config, s: State, step: Step, p: PoolId)
    requires Enabled(c, s, step) && Refs(s) && Spent(s, p) && p < s.created
    ensures
      var s' := Next(c, s, step);
      && Spent(s', p) && s'.pools[p].requestBudget == s.pools[p].requestBudget
      && s'.pools[p].charged == s.pools[p].charged + One(Charges(s, step, p))
      && (Bound(s'.At(step.t), p) ==> Bound(s.At(step.t), p))
      && (Charges(s, step, p) ==> Bound(s.At(step.t), p) && !Bound(s'.At(step.t), p))
  {
    assert step.t in s.threads ==> RefsOk(s, s.threads[step.t]);
  }

  lemma {:induction false} SpentRun(c: Config, s: State, steps: seq<Step>, p: PoolId)
    requires IsRun(c, s, steps) && Inv(c, s) && Refs(s) && Spent(s, p)
    ensures
      var end := After(c, s, steps);
      && Spent(end, p) && end.pools[p].requestBudget == s.pools[p].requestBudget
      && end.pools[p].charged == s.pools[p].charged + |Chargers(c, s, steps, p)|
      && Chargers(c, s, steps, p) <= Callers(s, p, AnyBound)
    decreases |steps|
  {
    hide Inv, Refs, Next, Enabled, Bound, Callers, Charges;
    if steps != [] {
      var step, s' := steps[0], Next(c, s, steps[0]);
      Created(c, s, p);
      SpentStep(c, s, step, p);
      StepKeepsInv(c, s, step);
      StepKeepsRefs(c, s, step);
      SpentRun(c, s', steps[1..], p);
      StepOnlyMoves(c, s, step);
      CallersMove(s, s', step.t, p, AnyBound);
      CalledWhen(s, step.t, p, AnyBound);
      CalledWhen(s', step.t, p, AnyBound);
      var later := Chargers(c, s', steps[1..], p);
      forall u | u in later ensures u in Callers(s, p, AnyBound) {
        if u != step.t { assert u in Callers(s', p, AnyBound) - {step.t}; }
      }
      if Charges(s, step, p) {
        assert step.t !in later;
        assert Chargers(c, s, steps, p) == {step.t} + later;
      } else {
        assert Chargers(c, s, steps, p) == later;
      }
    }
  }

  lemma Created(c: Config, s: State, p: PoolId)
    requires Inv(c, s) && p in s.pools
    ensures p < s.created && Ledger(s.pools[p])
  {
  }

  /** The last request goes to the charge of a bound caller, which leaves one fewer, or to a packet. */
  lemma SpendingStep(c: Config, s: State, step: Step, p: PoolId)
    requires Inv(c, s) && Refs(s) && Spends(c, s, step, p)
    ensures
      var s' := Next(c, s, step);
      && (step.Charge? || step.Packet?)
      && s'.pools[p].requestBudget == Some(s'.pools[p].charged)
      && |Callers(s', p, AnyBound)| == |Callers(s, p, AnyBound)| - One(step.Charge?)
  {
    hide Callers, Usable, HolderOk, Bound;
    SpendingKind(c, s, step, p);
    var s', t := Next(c, s, step), step.t;
    StepOnlyMoves(c, s, step);
    CallersMove(s, s', t, p, AnyBound);
    CalledWhen(s, t, p, AnyBound);
    CalledWhen(s', t, p, AnyBound);
    hide Next, Enabled, Refs, Inv, OnlyMoves;
    var others := CountMove(Callers(s, p, AnyBound), Callers(s', p, AnyBound), t);
  }

  lemma SpendingKind(c: Config, s: State, step: Step, p: PoolId)
    requires Inv(c, s) && Refs(s) && Spends(c, s, step, p)
    ensures
      var s' := Next(c, s, step);
      && (step.Charge? || step.Packet?)
      && s'.pools[p].requestBudget == Some(s'.pools[p].charged)
      && Bound(s.At(step.t), p) == step.Charge?
      && !Bound(s'.At(step.t), p)
  {
    hide Usable, HolderOk;
    assert step.t in s.threads ==> RefsOk(s, s.threads[step.t]);
    if p in s.pools { Created(c, s, p); }
  }

  // ---------------------------------------------------------------- runs cut at a step

  lemma RunHead(c: Config, s: State, steps: seq<Step>)
    requires IsRun(c, s, steps) && steps != []
    ensures Enabled(c, s, steps[0]) && IsRun(c, Next(c, s, steps[0]), steps[1..])
    ensures After(c, s, steps) == After(c, Next(c, s, steps[0]), steps[1..])
  {
  }

  lemma RunCons(c: Config, s: State, step: Step, rest: seq<Step>)
    requires Enabled(c, s, step) && IsRun(c, Next(c, s, step), rest)
    ensures IsRun(c, s, [step] + rest) && After(c, s, [step] + rest) == After(c, Next(c, s, step), rest)
  {
    assert ([step] + rest)[1..] == rest;
  }

  lemma RunNil(c: Config, s: State)
    ensures IsRun(c, s, []) && After(c, s, []) == s
  {
  }

  lemma {:induction false} RunSplit(c: Config, s: State, steps: seq<Step>, i: nat)
    requires IsRun(c, s, steps) && i <= |steps|
    ensures IsRun(c, s, steps[..i]) && IsRun(c, After(c, s, steps[..i]), steps[i..])
    ensures After(c, s, steps) == After(c, After(c, s, steps[..i]), steps[i..])
    decreases i
  {
    hide Next, Enabled, IsRun, After;
    if i == 0 {
      RunNil(c, s);
      assert steps[..0] == [] && steps[0..] == steps;
    } else {
      var s' := (RunHead(c, s, steps); Next(c, s, steps[0]));
      RunSplit(c, s', steps[1..], i - 1);
      RunCons(c, s, steps[0], steps[1..][..i - 1]);
      assert steps[..i] == [steps[0]] + steps[1..][..i - 1];
      assert steps[1..][i - 1..] == steps[i..];
    }
  }

  /** The state before step `i`. */
  ghost function Before(c: Config, steps: seq<Step>, i: nat): State
    requires IsRun(c, Start, steps) && i <= |steps|
  {
    RunSplit(c, Start, steps, i);
    After(c, Start, steps[..i])
  }

  lemma BeforeStep(c: Config, steps: seq<Step>, i: nat)
    requires IsRun(c, Start, steps) && i < |steps|
    ensures Enabled(c, Before(c, steps, i), steps[i])
    ensures Before(c, steps, i + 1) == Next(c, Before(c, steps, i), steps[i])
  {
    hide Next, Enabled;
    RunSplit(c, Start, steps, i);
    RunSplit(c, Start, steps, i + 1);
    RunSplit(c, Start, steps[..i + 1], i);
    assert steps[..i + 1][..i] == steps[..i] && steps[..i + 1][i..] == [steps[i]];
    assert [steps[i]][1..] == [];
  }

  lemma BeforeInv(c: Config, steps: seq<Step>, i: nat)
    requires IsRun(c, Start, steps) && i <= |steps|
    ensures Inv(c, Before(c, steps, i)) && Refs(Before(c, steps, i))
  {
    hide Inv, Next, Enabled;
    StartInv(c);
    assert Refs(Start);
    RunSplit(c, Start, steps, i);
    RunKeepsInv(c, Start, steps[..i]);
    RunKeepsRefs(c, Start, steps[..i]);
  }

  lemma {:induction false} AtMostThere(
    c: Config, s: State, steps: seq<Step>, p: PoolId, kind: Kind, n: nat, i: nat)
    requires IsRun(c, s, steps) && AtMost(c, s, steps, p, kind, n) && i <= |steps|
    ensures IsRun(c, s, steps[..i]) && |Callers(After(c, s, steps[..i]), p, kind)| <= n
    decreases i
  {
    hide Next, Enabled, Callers;
    if i > 0 {
      AtMostThere(c, Next(c, s, steps[0]), steps[1..], p, kind, n, i - 1);
      RunCons(c, s, steps[0], steps[1..][..i - 1]);
      assert steps[..i] == [steps[0]] + steps[1..][..i - 1];
    }
  }

  /** A pool that ends without requests lost the last one at some step. */
  lemma {:induction false} SpendingFound(c: Config, steps: seq<Step>, j: nat, p: PoolId) returns (i: nat)
    requires IsRun(c, Start, steps) && j <= |steps| && Spent(Before(c, steps, j), p)
    ensures i < j && Spends(c, Before(c, steps, i), steps[i], p)
    decreases j
  {
    hide Next, Enabled;
    i := j;
    if j > 0 {
      BeforeStep(c, steps, j - 1);
      if Spent(Before(c, steps, j - 1), p) {
        i := SpendingFound(c, steps, j - 1, p);
      } else {
        i := j - 1;
      }
    }
  }

  // ---------------------------------------------------------------- the exact overshoot

  /** The callers that charge the pool after step `i`. */
  ghost function LateChargers(c: Config, steps: seq<Step>, i: nat, p: PoolId): set<Thread>
    requires IsRun(c, Start, steps) && i < |steps|
  {
    RunSplit(c, Start, steps, i + 1);
    Chargers(c, Before(c, steps, i + 1), steps[i + 1..], p)
  }

  /**
   Requests beyond the budget are exactly the charges of callers that had found the pool usable
   when its last request was spent.
   */
  lemma RequestOvershootExact(c: Config, steps: seq<Step>, i: nat, p: PoolId)
    requires IsRun(c, Start, steps) && i < |steps| && Spends(c, Before(c, steps, i), steps[i], p)
    ensures
      var end, bound := After(c, Start, steps), Callers(Before(c, steps, i + 1), p, AnyBound);
      && p in end.pools && end.pools[p].requestBudget.Some?
      && end.pools[p].charged == end.pools[p].requestBudget.value + |LateChargers(c, steps, i, p)|
      && LateChargers(c, steps, i, p) <= bound
      && |bound| == |Callers(Before(c, steps, i), p, AnyBound)| - One(steps[i].Charge?)
      && (steps[i].Charge? || steps[i].Packet?)
  {
    hide Next, Enabled, Inv, Refs, Callers, IsRun, After, Chargers;
    BeforeInv(c, steps, i);
    BeforeInv(c, steps, i + 1);
    BeforeStep(c, steps, i);
    SpendingStep(c, Before(c, steps, i), steps[i], p);
    RunSplit(c, Start, steps, i + 1);
    SpentRun(c, Before(c, steps, i + 1), steps[i + 1..], p);
  }

  /** A packet spends the last request while `n` callers have found the pool usable, and all of them charge. */
  ghost predicate FullOvershoot(c: Config, steps: seq<Step>, n: nat, p: PoolId, i: nat)
    requires IsRun(c, Start, steps)
  {
    && i < |steps| && Spends(c, Before(c, steps, i), steps[i], p)
    && steps[i].Packet?
    && |Callers(Before(c, steps, i + 1), p, AnyBound)| == n
    && LateChargers(c, steps, i, p) == Callers(Before(c, steps, i + 1), p, AnyBound)
  }

  /**
   With at most `n` callers at any time that found the pool usable inside `pick` and have not charged
   it, its requests exceed the budget by less than `n`, unless a packet spends the last request while
   there are `n` of them and all of these charge; then, and only then, they exceed it by exactly `n`.
   */
  lemma RequestsBelowIff(c: Config, steps: seq<Step>, n: nat, p: PoolId)
    requires IsRun(c, Start, steps) && AtMost(c, Start, steps, p, AnyBound, n)
    requires p in After(c, Start, steps).pools && After(c, Start, steps).pools[p].requestBudget.Some?
    ensures
      var pool := After(c, Start, steps).pools[p];
      && pool.charged <= pool.requestBudget.value + n
      && (pool.charged < pool.requestBudget.value + n <==> !exists i: nat :: FullOvershoot(c, steps, n, p, i))
  {
    hide Next, Enabled, Inv, Refs, Callers, After, AtMost, LateChargers, Spends;
    var end := After(c, Start, steps);
    BeforeLast(c, steps);
    BeforeInv(c, steps, |steps|);
    Created(c, end, p);
    if end.pools[p].charged >= end.pools[p].requestBudget.value {
      var i := SpendingFound(c, steps, |steps|, p);
      RequestOvershootExact(c, steps, i, p);
      AtMostThere(c, Start, steps, p, AnyBound, n, i);
      var late, bound := LateChargers(c, steps, i, p), Callers(Before(c, steps, i + 1), p, AnyBound);
      SubsetSize(late, bound);
      if end.pools[p].charged == end.pools[p].requestBudget.value + n {
        assert FullOvershoot(c, steps, n, p, i);
      }
    }
    forall i: nat | FullOvershoot(c, steps, n, p, i)
      ensures end.pools[p].charged == end.pools[p].requestBudget.value + n
    {
      RequestOvershootExact(c, steps, i, p);
    }
  }

  lemma BeforeLast(c: Config, steps: seq<Step>)
    requires IsRun(c, Start, steps)
    ensures Before(c, steps, |steps|) == After(c, Start, steps)
  {
    assert steps[..|steps|] == steps;
  }

  // ---------------------------------------------------------------- two runs that exceed a limit

  /** The run leads to the state with at most one such caller of pool 0 at any time. */
  ghost predicate Reaches(c: Config, s: State, steps: seq<Step>, kind: Kind, end: State) {
    IsRun(c, s, steps) && AtMost(c, s, steps, 0, kind, 1) && After(c, s, steps) == end
  }

  lemma Prepend(c: Config, s: State, step: Step, s': State, steps: seq<Step>, kind: Kind, end: State)
    requires TakesTo(c, s, step, s') && Reaches(c, s', steps, kind, end) && |Callers(s, 0, kind)| <= 1
    ensures Reaches(c, s, [step] + steps, kind, end)
  {
    hide Next, Enabled, Callers;
    assert ([step] + steps)[1..] == steps;
  }

  lemma ReachesItself(c: Config, s: State, kind: Kind)
    requires |Callers(s, 0, kind)| <= 1
    ensures Reaches(c, s, [], kind, s)
  {
  }

  lemma OneCalls(s: State, t: Thread, kind: Kind)
    ensures (forall u :: u in s.threads && u != t ==> !Counted(s.threads[u], 0, kind)) ==> |Callers(s, 0, kind)| <= 1
  {
    if forall u :: u in s.threads && u != t ==> !Counted(s.threads[u], 0, kind) {
      SubsetSize(Callers(s, 0, kind), {t});
    }
  }

  const Fresh := Pool(0, None, Some(2), false, None, Some(2), 0, 0)

  const Once := Fresh.(served := 1, running := 1, requests := Some(1), charged := 1)

  const FirstLease := Leased(Lease(0, 0))

  /** Thread 0 has picked the pool that it created. */
  const OnePicked := State(map[0 := Fresh.(served := 1)], {0}, None, map[0 := Uncharged(true, None, 0)], 1)

  /** Thread 0 holds a lease on the only pool, which has one request left. */
  const OneLeft := State(map[0 := Once], {0}, None, map[0 := FirstLease], 1)

  /** As before, and thread 1 has found the pool usable. */
  const OneScanned := State(map[0 := Once], {0}, Some(1),
                            map[0 := FirstLease, 1 := Scanning(true, None, {}, {0}, 1)], 1)

  /** As before, and thread 1 has picked the pool. */
  const MidCharge := State(map[0 := Once.(served := 2)], {0}, None,
                           map[0 := FirstLease, 1 := Uncharged(true, None, 0)], 1)

  const TwoLeases := State(map[0 := Once.(served := 2, requests := Some(0), charged := 2, running := 2)], {0}, None,
                           map[0 := FirstLease, 1 := FirstLease], 1)

  const Exceeded := State(map[0 := Once.(served := 2, requests := Some(0), charged := 3, running := 2)], {0}, None,
                          map[0 := FirstLease, 1 := FirstLease], 1)

  lemma FirstPick(c: Config, rest: seq<Step>, kind: Kind, end: State)
    requires Reaches(c, OnePicked, rest, kind, end)
    ensures Reaches(c, Start, [Connect(0)] + ([Create(0, {}, 0, 2)] + ([Take(0)] + rest)), kind, end)
  {
    hide TakesTo, Reaches, Callers;
    var s1 := State(map[], {}, Some(0), map[0 := Scanning(true, None, {}, {}, 0)], 0);
    var s2 := State(map[0 := Fresh], {0}, Some(0), map[0 := Chosen(true, None, 0)], 1);
    OneCalls(s2, 0, kind);
    OneCalls(s1, 0, kind);
    OneCalls(Start, 0, kind);
    TakeTake(c, s2, 0, OnePicked);
    Prepend(c, s2, Take(0), OnePicked, rest, kind, end);
    TakeCreate(c, s1, s2);
    Prepend(c, s1, Create(0, {}, 0, 2), s2, [Take(0)] + rest, kind, end);
    TakeConnect(c, Start, 0, s1);
    Prepend(c, Start, Connect(0), s1, [Create(0, {}, 0, 2)] + ([Take(0)] + rest), kind, end);
  }

  lemma SecondPick(c: Config, rest: seq<Step>, kind: Kind, end: State)
    requires c.maxConnections == 0 && Reaches(c, MidCharge, rest, kind, end)
    ensures Reaches(c, OneScanned, [Choose(1, 0)] + ([Take(1)] + rest), kind, end)
  {
    hide TakesTo, Reaches, Callers;
    var s7 := OneScanned.(threads := map[0 := FirstLease, 1 := Chosen(true, None, 0)]);
    OneCalls(s7, 1, kind);
    OneCalls(OneScanned, 1, kind);
    TakeTake(c, s7, 1, MidCharge);
    Prepend(c, s7, Take(1), MidCharge, rest, kind, end);
    TakeChoose(c, OneScanned, s7);
    Prepend(c, OneScanned, Choose(1, 0), s7, [Take(1)] + rest, kind, end);
  }

  /** The first caller charges before the second one scans. */
  lemma ChargeThenScan(c: Config, rest: seq<Step>, kind: Kind, end: State)
    requires c == Config(0, 0) && Reaches(c, OneScanned, rest, kind, end)
    ensures Reaches(c, OnePicked, [Charge(0)] + ([Connect(1)] + ([Scan(1, 0, false)] + rest)), kind, end)
  {
    hide TakesTo, Reaches, Callers;
    var s5 := OneScanned.(threads := map[0 := FirstLease, 1 := Scanning(true, None, {0}, {}, 0)]);
    OneCalls(s5, 1, kind);
    OneCalls(OneLeft, 0, kind);
    OneCalls(OnePicked, 0, kind);
    TakeScan(c, s5, OneScanned);
    Prepend(c, s5, Scan(1, 0, false), OneScanned, rest, kind, end);
    TakeConnect(c, OneLeft, 1, s5);
    Prepend(c, OneLeft, Connect(1), s5, [Scan(1, 0, false)] + rest, kind, end);
    TakeCharge(c, OnePicked, 0, OneLeft);
    Prepend(c, OnePicked, Charge(0), OneLeft, [Connect(1)] + ([Scan(1, 0, false)] + rest), kind, end);
  }

  /** The second caller scans before the first one charges: only one of them has picked at any time. */
  lemma ScanThenCharge(c: Config, rest: seq<Step>, end: State)
    requires c == Config(1, 0) && Reaches(c, OneScanned, rest, OnlyPicked, end)
    ensures Reaches(c, OnePicked, [Connect(1)] + ([Scan(1, 0, false)] + ([Charge(0)] + rest)), OnlyPicked, end)
  {
    hide TakesTo, Reaches, Callers;
    var picked := Uncharged(true, None, 0);
    var s4 := OnePicked.(lock := Some(1), threads := map[0 := picked, 1 := Scanning(true, None, {0}, {}, 0)]);
    var s5 := s4.(threads := map[0 := picked, 1 := Scanning(true, None, {}, {0}, 1)]);
    OneCalls(s5, 0, OnlyPicked);
    OneCalls(s4, 0, OnlyPicked);
    OneCalls(OnePicked, 0, OnlyPicked);
    TakeCharge(c, s5, 0, OneScanned);
    Prepend(c, s5, Charge(0), OneScanned, rest, OnlyPicked, end);
    TakeScan(c, s4, s5);
    Prepend(c, s4, Scan(1, 0, false), s5, [Charge(0)] + rest, OnlyPicked, end);
    TakeConnect(c, OnePicked, 1, s4);
    Prepend(c, OnePicked, Connect(1), s4, [Scan(1, 0, false)] + ([Charge(0)] + rest), OnlyPicked, end);
  }

  /** The packet takes the last request; the caller that has picked charges all the same. */
  lemma LastRequestTwice(c: Config)
    requires c == Config(0, 0)
    ensures Reaches(c, MidCharge, [Packet(0, false)] + [Charge(1)], AnyBound, Exceeded)
  {
    hide TakesTo, Reaches, Callers;
    var s9 := MidCharge.(pools := map[0 := Once.(served := 2, requests := Some(0), charged := 2)]);
    OneCalls(Exceeded, 1, AnyBound);
    OneCalls(s9, 1, AnyBound);
    OneCalls(MidCharge, 1, AnyBound);
    TakeCharge(c, s9, 1, Exceeded);
    ReachesItself(c, Exceeded, AnyBound);
    Prepend(c, s9, Charge(1), Exceeded, [], AnyBound, Exceeded);
    assert [Charge(1)] + [] == [Charge(1)];
    TakePacket(c, MidCharge, s9);
    Prepend(c, MidCharge, Packet(0, false), s9, [Charge(1)], AnyBound, Exceeded);
  }

  /**
   The bound is reached: when a packet spends the last request of a pool while one caller has found
   it usable and not charged it, that caller's charge exceeds the budget by one.
   */
  lemma OvershootReached() returns (steps: seq<Step>)
    ensures IsRun(Config(0, 0), Start, steps) && AtMost(Config(0, 0), Start, steps, 0, AnyBound, 1)
    ensures
      var s := After(Config(0, 0), Start, steps);
      0 in s.pools && s.pools[0].requestBudget == Some(2) && s.pools[0].charged == 3
  {
    hide IsRun, AtMost, After;
    var c := Config(0, 0);
    LastRequestTwice(c);
    steps := [Packet(0, false)] + [Charge(1)];
    SecondPick(c, steps, AnyBound, Exceeded);
    steps := [Choose(1, 0)] + ([Take(1)] + steps);
    ChargeThenScan(c, steps, AnyBound, Exceeded);
    steps := [Charge(0)] + ([Connect(1)] + ([Scan(1, 0, false)] + steps));
    FirstPick(c, steps, AnyBound, Exceeded);
    steps := [Connect(0)] + ([Create(0, {}, 0, 2)] + ([Take(0)] + steps));
  }

  /**
   Counting only the callers past the scan does not bound the leases: with a cap of one and at most
   one such caller at any time, a caller that scans while another charges takes a second lease.
   */
  lemma ScanningCallerExceeds() returns (steps: seq<Step>)
    ensures IsRun(Config(1, 0), Start, steps) && AtMost(Config(1, 0), Start, steps, 0, OnlyPicked, 1)
    ensures
      var s := After(Config(1, 0), Start, steps);
      s.pools.Keys == {0} && s.pools[0].running == 2
  {
    hide IsRun, AtMost, After;
    var c := Config(1, 0);
    TakeCharge(c, MidCharge, 1, TwoLeases);
    OneCalls(TwoLeases, 1, OnlyPicked);
    OneCalls(MidCharge, 1, OnlyPicked);
    ReachesItself(c, TwoLeases, OnlyPicked);
    Prepend(c, MidCharge, Charge(1), TwoLeases, [], OnlyPicked, TwoLeases);
    steps := [Charge(1)] + [];
    SecondPick(c, steps, OnlyPicked, TwoLeases);
    steps := [Choose(1, 0)] + ([Take(1)] + steps);
    ScanThenCharge(c, steps, TwoLeases);
    steps := [Connect(1)] + ([Scan(1, 0, false)] + ([Charge(0)] + steps));
    FirstPick(c, steps, OnlyPicked, TwoLeases);
    steps := [Connect(0)] + ([Create(0, {}, 0, 2)] + ([Take(0)] + steps));
  }

  ghost predicate TakesTo(c: Config, s: State, step: Step, s': State) {
    Enabled(c, s, step) && Next(c, s, step) == s'
  }

  lemma TakeConnect(c: Config, s: State, t: Thread, s': State)
    requires s.At(t).Idle? && s.lock.None?
    requires s' == s.(lock := Some(t), threads := s'.threads)
    requires s'.threads == s.threads[t := Scanning(true, None, s.listed, {}, 0)]
    ensures TakesTo(c, s, Connect(t), s')
  {
  }

  lemma TakeCreate(c: Config, s: State, s': State)
    requires s.At(0) == Scanning(true, None, {}, {}, 0) && s.created == 0 && s'.created == 1
    requires s'.pools == s.pools[0 := Pool(0, None, Some(2), false, None, Some(2), 0, 0)]
    requires s'.listed == s.listed + {0} && s'.lock == s.lock && s'.threads == s.threads[0 := Chosen(true, None, 0)]
    ensures TakesTo(c, s, Create(0, {}, 0, 2), s')
  {
    assert s.listed - {} + {0} == s.listed + {0};
  }

  lemma TakeScan(c: Config, s: State, s': State)
    requires s.At(1) == Scanning(true, None, {0}, {}, 0) && 0 in s.pools
    requires !s.pools[0].retired && !Exhausted(s.pools[0])
    requires c.maxConcurrency == 0 || s.pools[0].running < c.maxConcurrency
    requires s' == s.(threads := s'.threads) && s'.threads == s.threads[1 := Scanning(true, None, {}, {0}, 1)]
    ensures TakesTo(c, s, Scan(1, 0, false), s')
  {
    assert {0} - {0} == {} && {} + {0} == {0};
  }

  lemma TakeChoose(c: Config, s: State, s': State)
    requires c.maxConnections == 0 && s.At(1) == Scanning(true, None, {}, {0}, 1)
    requires s' == s.(threads := s'.threads) && s'.threads == s.threads[1 := Chosen(true, None, 0)]
    ensures TakesTo(c, s, Choose(1, 0), s')
  {
  }

  lemma TakeTake(c: Config, s: State, t: Thread, s': State)
    requires s.At(t) == Chosen(true, None, 0) && 0 in s.pools && s.pools[0].reuse.None?
    requires s'.pools == s.pools[0 := s.pools[0].(served := s.pools[0].served + 1)] && s'.lock.None?
    requires s'.listed == s.listed && s'.created == s.created && s'.threads == s.threads[t := Uncharged(true, None, 0)]
    ensures TakesTo(c, s, Take(t), s')
  {
  }

  lemma TakeCharge(c: Config, s: State, t: Thread, s': State)
    requires s.At(t) == Uncharged(true, None, 0) && 0 in s.pools
    requires s'.pools == s.pools[0 := ChargeRequest(s.pools[0]).(running := s.pools[0].running + 1)]
    requires s'.lock == s.lock
    requires s'.listed == s.listed && s'.created == s.created && s'.threads == s.threads[t := Leased(Lease(0, 0))]
    ensures TakesTo(c, s, Charge(t), s')
  {
  }

  lemma TakePacket(c: Config, s: State, s': State)
    requires s.At(0) == Leased(Lease(0, 0)) && 0 in s.pools && !s.pools[0].retired && s.pools[0].requests != Some(0)
    requires s' == s.(pools := s'.pools) && s'.pools == s.pools[0 := ChargeRequest(s.pools[0])]
    ensures TakesTo(c, s, Packet(0, false), s')
  {
  }
}
