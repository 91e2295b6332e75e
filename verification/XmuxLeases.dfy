/**
 The accounts of an XMUX pool (src/xmux.rs) against what happened. Its running connections are
 exactly the threads that hold a lease on it, so dropping a lease never finds the counter at zero. Its
 budgets are those sampled when it was created, and what is taken from them is counted step by step.
 */
module XmuxLeases {
  import opened Basics
  import opened Xmux
  import opened XmuxOvershoot

  /** The lease a thread holds, also while it picks another pool for its requests. */
  function LeaseOf(pc: Pc): Option<Lease> {
    match pc
    case Idle => None
    case Leased(held) => Some(held)
    case NeedPool(held) => Some(held)
    case _ => pc.lease
  }

  predicate Holds(pc: Pc, p: PoolId) {
    LeaseOf(pc).Some? && LeaseOf(pc).value.connection == p
  }

  function Holders(s: State, p: PoolId): set<Thread> {
    set t | t in s.threads && Holds(s.threads[t], p)
  }

  /** A thread that picks for a new connection holds no lease yet. */
  predicate FreshConnect(pc: Pc) {
    (pc.Scanning? || pc.Chosen? || pc.Uncharged?) && pc.forConnection ==> pc.lease.None?
  }

  ghost predicate LeasesOk(s: State) {
    && (forall t :: t in s.threads ==> FreshConnect(s.threads[t]))
    && (forall p :: p in s.pools ==> s.pools[p].running == |Holders(s, p)|)
  }

  lemma StepFresh(c: Config, s: State, step: Step)
    requires Enabled(c, s, step) && FreshConnect(s.At(step.t))
    ensures FreshConnect(Next(c, s, step).At(step.t))
  {
  }

  lemma StepRunning(c: Config, s: State, step: Step, p: PoolId)
    requires Enabled(c, s, step) && p in s.pools && p < s.created && FreshConnect(s.At(step.t))
    requires Holds(s.At(step.t), p) ==> s.pools[p].running > 0
    ensures
      var s' := Next(c, s, step);
      && p in s'.pools
      && s'.pools[p].running == s.pools[p].running + One(Holds(s'.At(step.t), p)) - One(Holds(s.At(step.t), p))
  {
  }

  lemma HoldersMove(s: State, s': State, t: Thread, p: PoolId)
    requires OnlyMoves(s, s', t)
    ensures Holders(s', p) - {t} == Holders(s, p) - {t}
    ensures t in Holders(s, p) <==> Holds(s.At(t), p)
    ensures t in Holders(s', p) <==> Holds(s'.At(t), p)
  {
    hide Holds;
    assert Idle == s.At(t) ==> !Holds(s.At(t), p) by { IdleHoldsNothing(p); }
    assert Idle == s'.At(t) ==> !Holds(s'.At(t), p) by { IdleHoldsNothing(p); }
  }

  lemma IdleHoldsNothing(p: PoolId)
    ensures !Holds(Idle, p)
  {
  }

  lemma NewPoolUnheld(c: Config, s: State, step: Step, p: PoolId)
    requires Enabled(c, s, step) && Refs(s) && p !in s.pools && p in Next(c, s, step).pools
    ensures Next(c, s, step).pools[p].running == 0 && Holders(Next(c, s, step), p) == {}
  {
    StepNewPool(c, s, step, p);
    StepOnlyMoves(c, s, step);
    var s' := Next(c, s, step);
    forall t | t in s'.threads ensures !Holds(s'.threads[t], p) {
      assert t in s.threads ==> RefsOk(s, s.threads[t]);
    }
  }

  lemma StepPoolLeases(c: Config, s: State, step: Step, p: PoolId)
    requires Enabled(c, s, step) && Inv(c, s) && Refs(s) && LeasesOk(s) && p in Next(c, s, step).pools
    ensures Next(c, s, step).pools[p].running == |Holders(Next(c, s, step), p)|
  {
    hide Inv, Refs, Next, Enabled, Holders, Holds, FreshConnect;
    var s', t := Next(c, s, step), step.t;
    if p !in s.pools {
      NewPoolUnheld(c, s, step, p);
    } else {
      Created(c, s, p);
      StepOnlyMoves(c, s, step);
      HoldersMove(s, s', t, p);
      var others := CountMove(Holders(s, p), Holders(s', p), t);
      assert FreshConnect(s.At(t)) by { IdleIsFresh(); }
      StepRunning(c, s, step, p);
    }
  }

  lemma IdleIsFresh()
    ensures FreshConnect(Idle)
  {
  }

  lemma StepLeases(c: Config, s: State, step: Step)
    requires Enabled(c, s, step) && Inv(c, s) && Refs(s) && LeasesOk(s)
    ensures LeasesOk(Next(c, s, step))
  {
    hide Inv, Refs, Next, Enabled, Holders, FreshConnect;
    var s' := Next(c, s, step);
    forall p | p in s'.pools ensures s'.pools[p].running == |Holders(s', p)| {
      StepPoolLeases(c, s, step, p);
    }
    assert FreshConnect(s.At(step.t)) by { IdleIsFresh(); }
    StepFresh(c, s, step);
    StepOnlyMoves(c, s, step);
  }

  lemma {:induction false} RunLeases(c: Config, s: State, steps: seq<Step>)
    requires IsRun(c, s, steps) && Inv(c, s) && Refs(s) && LeasesOk(s)
    ensures LeasesOk(After(c, s, steps))
    decreases |steps|
  {
    hide Inv, Refs, LeasesOk;
    if steps != [] {
      StepLeases(c, s, steps[0]);
      StepKeepsInv(c, s, steps[0]);
      StepKeepsRefs(c, s, steps[0]);
      RunLeases(c, Next(c, s, steps[0]), steps[1..]);
    }
  }

  /** In every interleaving a pool runs as many connections as there are leases on it. */
  lemma RunningExact(c: Config, steps: seq<Step>, p: PoolId)
    requires IsRun(c, Start, steps) && p in After(c, Start, steps).pools
    ensures After(c, Start, steps).pools[p].running == |Holders(After(c, Start, steps), p)|
  {
    StartInv(c);
    assert Refs(Start);
    RunLeases(c, Start, steps);
  }

  // ---------------------------------------------------------------- budgets over a run

  /** The step takes a connection from the pool. */
  predicate TakesFrom(s: State, step: Step, p: PoolId) {
    step.Take? && s.At(step.t).Chosen? && s.At(step.t).forConnection && s.At(step.t).pool == p
  }

  /** The step sends a request over the pool: the first of a pick, or a packet that keeps its lease. */
  ghost predicate SendsOver(s: State, step: Step, s': State, p: PoolId) {
    || Charges(s, step, p)
    || (step.Packet? && s.At(step.t).Leased? && s.At(step.t).held.request == p && s'.At(step.t).Leased?)
  }

  /** How many connections the first `i` steps took from the pool. */
  ghost function Taken(c: Config, steps: seq<Step>, i: nat, p: PoolId): nat
    requires IsRun(c, Start, steps) && i <= |steps|
  {
    if i == 0 then 0 else Taken(c, steps, i - 1, p) + if TakesFrom(Before(c, steps, i - 1), steps[i - 1], p)
      then 1 else 0
  }

  /** How many requests the first `i` steps sent over the pool. */
  ghost function Requests(c: Config, steps: seq<Step>, i: nat, p: PoolId): nat
    requires IsRun(c, Start, steps) && i <= |steps|
  {
    if i == 0 then 0
    else
      Requests(c, steps, i - 1, p) +
      if SendsOver(Before(c, steps, i - 1), steps[i - 1], Before(c, steps, i), p) then 1 else 0
  }

  lemma StepAccounts(c: Config, s: State, step: Step, p: PoolId)
    requires Enabled(c, s, step) && p in s.pools && p < s.created
    ensures
      var s' := Next(c, s, step);
      && p in s'.pools
      && s'.pools[p].served == s.pools[p].served + (if TakesFrom(s, step, p) then 1 else 0)
      && s'.pools[p].charged == s.pools[p].charged + (if SendsOver(s, step, s', p) then 1 else 0)
      && s'.pools[p].reuseBudget == s.pools[p].reuseBudget
      && s'.pools[p].requestBudget == s.pools[p].requestBudget
  {
  }

  lemma StepAbsent(c: Config, s: State, step: Step, p: PoolId)
    requires Enabled(c, s, step) && Refs(s) && p !in s.pools
    ensures !TakesFrom(s, step, p) && !SendsOver(s, step, Next(c, s, step), p)
    ensures p in Next(c, s, step).pools ==>
      && step.Create? && p == s.created
      && Next(c, s, step).pools[p].served == 0 && Next(c, s, step).pools[p].charged == 0
      && Next(c, s, step).pools[p].reuseBudget == (if step.reuse == 0 then None else Some(step.reuse))
      && Next(c, s, step).pools[p].requestBudget == (if step.requests == 0 then None else Some(step.requests))
  {
    assert step.t in s.threads ==> RefsOk(s, s.threads[step.t]);
  }

  /** Step `k` created the pool with these budgets; zero means no limit. */
  ghost predicate CreatedBy(c: Config, steps: seq<Step>, k: nat, p: PoolId)
    requires IsRun(c, Start, steps)
  {
    k < |steps| && steps[k].Create? && Before(c, steps, k).created == p
  }

  /** Each pool keeps the budgets it was created with, and its accounts are what the run took from it. */
  ghost predicate Accounted(c: Config, steps: seq<Step>, i: nat, p: PoolId)
    requires IsRun(c, Start, steps) && i <= |steps|
  {
    var s := Before(c, steps, i);
    if p in s.pools then
      && s.pools[p].served == Taken(c, steps, i, p) && s.pools[p].charged == Requests(c, steps, i, p)
      && exists k: nat ::
           && k < i && CreatedBy(c, steps, k, p)
           && s.pools[p].reuseBudget == (if steps[k].reuse == 0 then None else Some(steps[k].reuse))
           && s.pools[p].requestBudget == (if steps[k].requests == 0 then None else Some(steps[k].requests))
    else Taken(c, steps, i, p) == 0 && Requests(c, steps, i, p) == 0
  }

  lemma {:induction false} RunAccounted(c: Config, steps: seq<Step>, i: nat, p: PoolId)
    requires IsRun(c, Start, steps) && i <= |steps|
    ensures Accounted(c, steps, i, p)
    decreases i
  {
    hide Before, Next, Enabled, Inv, Refs, TakesFrom, SendsOver;
    if i == 0 {
      StartsEmpty(c, steps);
    } else {
      var k := i - 1;
      var s := Before(c, steps, k);
      RunAccounted(c, steps, k, p);
      BeforeInv(c, steps, k);
      BeforeStep(c, steps, k);
      if p in s.pools {
        Created(c, s, p);
        StepAccounts(c, s, steps[k], p);
      } else {
        StepAbsent(c, s, steps[k], p);
        assert p in Before(c, steps, i).pools ==> CreatedBy(c, steps, k, p);
      }
    }
  }

  lemma StartsEmpty(c: Config, steps: seq<Step>)
    requires IsRun(c, Start, steps)
    ensures Before(c, steps, 0) == Start
  {
    RunSplit(c, Start, steps, 0);
    assert steps[..0] == [];
  }

  /** In every interleaving a pool hands out at most as many connections as were sampled for it. */
  lemma ConnectionsWithinSample(c: Config, steps: seq<Step>, k: nat, p: PoolId)
    requires IsRun(c, Start, steps) && CreatedBy(c, steps, k, p)
    ensures steps[k].reuse > 0 ==> Taken(c, steps, |steps|, p) <= steps[k].reuse
  {
    hide Inv, Refs, Taken, Requests;
    RunAccounted(c, steps, |steps|, p);
    BeforeLast(c, steps);
    BeforeInv(c, steps, |steps|);
    if p in Before(c, steps, |steps|).pools {
      Created(c, Before(c, steps, |steps|), p);
      var m: nat :| m < |steps| && CreatedBy(c, steps, m, p)
        && Before(c, steps, |steps|).pools[p].reuseBudget ==
          (if steps[m].reuse == 0 then None else Some(steps[m].reuse));
      CreatedOnce(c, steps, k, m, p);
    }
  }

  lemma {:induction false} CreatedGrows(c: Config, steps: seq<Step>, i: nat, j: nat)
    requires IsRun(c, Start, steps) && i <= j <= |steps|
    ensures Before(c, steps, i).created <= Before(c, steps, j).created
    ensures i < j && steps[i].Create? ==> Before(c, steps, i).created < Before(c, steps, j).created
    decreases j
  {
    hide Before, Next, Enabled;
    if i < j {
      CreatedGrows(c, steps, i, j - 1);
      BeforeStep(c, steps, j - 1);
      CreatedStep(c, Before(c, steps, j - 1), steps[j - 1]);
    }
  }

  lemma CreatedStep(c: Config, s: State, step: Step)
    requires Enabled(c, s, step)
    ensures Next(c, s, step).created == s.created + if step.Create? then 1 else 0
  {
  }

  lemma CreatedOnce(c: Config, steps: seq<Step>, k: nat, m: nat, p: PoolId)
    requires IsRun(c, Start, steps) && CreatedBy(c, steps, k, p) && CreatedBy(c, steps, m, p)
    ensures k == m
  {
    hide Before;
    if k < m { CreatedGrows(c, steps, k, m); }
    if m < k { CreatedGrows(c, steps, m, k); }
  }
}
