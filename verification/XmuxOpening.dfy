/**
 When an XMUX pick (src/xmux.rs) opens a further pool and when it reuses one, told from the pools
 that are not retired rather than from what the pick has counted.
 */
module XmuxOpening {
  import opened Basics
  import opened Xmux
  import opened XmuxOvershoot

  /** Step `i` starts a pick of thread `t`, and step `j` decides it. */
  ghost predicate PickOf(c: Config, steps: seq<Step>, t: Thread, i: nat, j: nat) {
    && i < j < |steps|
    && steps[i].t == t && (steps[i].Connect? || steps[i].Repick?)
    && steps[j].t == t && (steps[j].Choose? || steps[j].Create? || steps[j].CreateFails?)
    && forall k :: i < k < j && steps[k].t == t ==> steps[k].Scan?
  }

  /** The pick of `t` that started in `s0` is at its scan: what it took down was usable from the start. */
  ghost predicate InPick(s0: State, s: State, t: Thread) {
    && s.At(t).Scanning? && s.lock == Some(t)
    && s.listed == s0.listed <= s0.pools.Keys <= s.pools.Keys
    && (forall p :: p in s0.pools && s0.pools[p].retired ==> s.pools[p].retired)
    && s.At(t).todo <= s0.listed && s.At(t).active <= Usable(s0)
  }

  lemma PickStarts(c: Config, s: State, step: Step)
    requires Enabled(c, s, step) && Refs(s) && (step.Connect? || step.Repick?)
    ensures InPick(s, Next(c, s, step), step.t)
  {
  }

  lemma OwnScan(c: Config, s0: State, s: State, step: Step)
    requires Enabled(c, s, step) && InPick(s0, s, step.t) && step.Scan?
    ensures InPick(s0, Next(c, s, step), step.t)
  {
  }

  lemma OtherStep(c: Config, s0: State, s: State, step: Step, t: Thread)
    requires Enabled(c, s, step) && Refs(s) && InPick(s0, s, t) && step.t != t
    ensures InPick(s0, Next(c, s, step), t)
  {
    assert step.t in s.threads && (s.At(step.t).Scanning? || s.At(step.t).Chosen?) ==> s.lock == Some(step.t);
  }

  lemma {:induction false} PickGoesOn(c: Config, steps: seq<Step>, t: Thread, i: nat, j: nat, k: nat)
    requires IsRun(c, Start, steps) && PickOf(c, steps, t, i, j) && i < k <= j
    ensures InPick(Before(c, steps, i), Before(c, steps, k), t)
    decreases k
  {
    hide InPick, Next, Enabled, Inv, Refs, Before;
    BeforeStep(c, steps, k - 1);
    BeforeInv(c, steps, k - 1);
    var s := Before(c, steps, k - 1);
    if k - 1 == i {
      PickStarts(c, s, steps[i]);
    } else {
      PickGoesOn(c, steps, t, i, j, k - 1);
      if steps[k - 1].t == t {
        OwnScan(c, Before(c, steps, i), s, steps[k - 1]);
      } else {
        OtherStep(c, Before(c, steps, i), s, steps[k - 1], t);
      }
    }
  }

  /** At its end a pick has counted the pools it took down, and has overlooked no usable one. */
  lemma ScanDone(c: Config, s: State, t: Thread)
    requires Inv(c, s) && s.At(t).Scanning? && s.At(t).todo == {} && c.maxConcurrency == 0
    ensures s.At(t).count == |s.At(t).active| && Usable(s) <= s.At(t).active
  {
    hide Usable;
    assert HolderOk(c, s, t, s.threads[t]);
  }

  /**
   With exclusive caps, a pick that starts while fewer pools than the connection cap are not retired
   opens a pool, or fails to, but does not reuse one.
   */
  lemma OpensBelowCap(c: Config, steps: seq<Step>, t: Thread, i: nat, j: nat)
    requires IsRun(c, Start, steps) && Exclusive(c) && PickOf(c, steps, t, i, j)
    requires |Usable(Before(c, steps, i))| < c.maxConnections
    ensures !steps[j].Choose?
  {
    hide Inv, Refs, Before, IsRun, After, Usable;
    PickGoesOn(c, steps, t, i, j, j);
    BeforeInv(c, steps, j);
    BeforeStep(c, steps, j);
    var s := Before(c, steps, j);
    if steps[j].Choose? {
      ScanDone(c, s, t);
      SubsetSize(s.At(t).active, Usable(Before(c, steps, i)));
    }
  }

  /**
   Without a concurrency cap a pick opens a pool, or fails to, only while fewer pools than the
   connection cap are not retired, or none if there is no cap.
   */
  lemma ReusesAtCap(c: Config, steps: seq<Step>, j: nat)
    requires IsRun(c, Start, steps) && c.maxConcurrency == 0 && j < |steps|
    requires steps[j].Create? || steps[j].CreateFails?
    ensures |Usable(Before(c, steps, j))| < Max(c.maxConnections, 1)
  {
    hide Inv, Refs, Before, IsRun, After, Usable;
    BeforeInv(c, steps, j);
    BeforeStep(c, steps, j);
    var s := Before(c, steps, j);
    ScanDone(c, s, steps[j].t);
    SubsetSize(Usable(s), s.At(steps[j].t).active);
  }

  // ---------------------------------------------------------------- how many pools there are

  /** How many picks of the run have decided. */
  function Decided(steps: seq<Step>): nat {
    if steps == [] then 0
    else Decided(steps[..|steps| - 1]) + if steps[|steps| - 1].Create? || steps[|steps| - 1].Choose? then 1 else 0
  }

  ghost predicate NoneRetired(s: State) {
    forall p :: p in s.pools ==> !s.pools[p].retired
  }

  lemma RetiredStays(c: Config, s: State, step: Step)
    requires Enabled(c, s, step) && Inv(c, s) && NoneRetired(Next(c, s, step))
    ensures NoneRetired(s)
  {
    hide HolderOk, Usable, Ledger;
    var s' := Next(c, s, step);
    forall p | p in s.pools ensures !s.pools[p].retired {
      StaysRetired(c, s, step, p);
    }
  }

  lemma StaysRetired(c: Config, s: State, step: Step, p: PoolId)
    requires Enabled(c, s, step) && p in s.pools && p < s.created
    ensures p in Next(c, s, step).pools && (s.pools[p].retired ==> Next(c, s, step).pools[p].retired)
  {
  }

  /** Scanned and unscanned pools of a pick are listed. */
  ghost predicate ScansListed(s: State) {
    forall t :: t in s.threads && s.threads[t].Scanning? ==> s.threads[t].active + s.threads[t].todo <= s.listed
  }

  lemma OwnListed(c: Config, s: State, step: Step)
    requires Enabled(c, s, step) && ScansListed(s)
    ensures
      var s' := Next(c, s, step);
      s'.At(step.t).Scanning? ==> s'.At(step.t).active + s'.At(step.t).todo <= s'.listed
  {
  }

  lemma StepScansListed(c: Config, s: State, step: Step)
    requires Enabled(c, s, step) && Refs(s) && ScansListed(s)
    ensures ScansListed(Next(c, s, step))
  {
    var s' := Next(c, s, step);
    OwnListed(c, s, step);
    StepOnlyMoves(c, s, step);
    assert step.t in s.threads && (s.At(step.t).Scanning? || s.At(step.t).Chosen?) ==> s.lock == Some(step.t);
    assert s'.listed == s.listed || s.At(step.t).Scanning?;
    hide Next, Enabled, RefsOk;
  }

  lemma {:induction false} RunScansListed(c: Config, steps: seq<Step>, i: nat)
    requires IsRun(c, Start, steps) && i <= |steps|
    ensures ScansListed(Before(c, steps, i))
    decreases i
  {
    hide Inv, Refs, Next, Enabled, ScansListed, Before;
    if i == 0 {
      NothingScanned(c, steps);
    } else {
      RunScansListed(c, steps, i - 1);
      BeforeInv(c, steps, i - 1);
      BeforeStep(c, steps, i - 1);
      StepScansListed(c, Before(c, steps, i - 1), steps[i - 1]);
    }
  }

  lemma NothingScanned(c: Config, steps: seq<Step>)
    requires IsRun(c, Start, steps)
    ensures ScansListed(Before(c, steps, 0)) && Usable(Before(c, steps, 0)) == {}
  {
    RunSplit(c, Start, steps, 0);
    assert steps[..0] == [];
  }

  lemma CreatedOne(c: Config, s: State, step: Step)
    requires Enabled(c, s, step) && Inv(c, s) && NoneRetired(Next(c, s, step)) && NoneRetired(s) && !step.CreateFails?
    ensures Usable(Next(c, s, step)) == Usable(s) + (if step.Create? then {s.created} else {})
    ensures s.created !in Usable(s)
  {
    hide HolderOk, Ledger;
  }

  lemma ChosenAtCap(c: Config, s: State, step: Step)
    requires Enabled(c, s, step) && step.Choose? && Inv(c, s) && ScansListed(s) && NoneRetired(s)
    requires c.maxConcurrency == 0 && c.maxConnections > 0
    ensures |Usable(s)| == c.maxConnections
  {
    ScanDone(c, s, step.t);
    assert s.At(step.t).active <= Usable(s) by {
      assert s.At(step.t).active + s.At(step.t).todo <= s.listed;
    }
    SubsetSize(s.At(step.t).active, Usable(s));
  }

  /**
   While no pool has retired and no pool could not be opened, every pick up to the connection cap has
   opened a pool and every later one has reused one.
   */
  lemma {:induction false} PoolsOpened(c: Config, steps: seq<Step>, i: nat)
    requires IsRun(c, Start, steps) && i <= |steps| && Exclusive(c) && c.maxConnections > 0
    requires NoneRetired(Before(c, steps, i)) && forall k :: 0 <= k < i ==> !steps[k].CreateFails?
    ensures |Usable(Before(c, steps, i))| == Min(Decided(steps[..i]), c.maxConnections)
    decreases i
  {
    hide Inv, Refs, Before, Usable, NoneRetired, ScansListed, Next, Enabled;
    if i == 0 {
      NothingScanned(c, steps);
      assert steps[..0] == [];
    } else {
      var k := i - 1;
      var s := Before(c, steps, k);
      assert steps[..i][..k] == steps[..k];
      BeforeStep(c, steps, k);
      BeforeInv(c, steps, k);
      RetiredStays(c, s, steps[k]);
      PoolsOpened(c, steps, k);
      CreatedOne(c, s, steps[k]);
      RunScansListed(c, steps, k);
      if steps[k].Create? {
        ReusesAtCap(c, steps, k);
      } else if steps[k].Choose? {
        ChosenAtCap(c, s, steps[k]);
      }
    }
  }

  // ---------------------------------------------------------------- the concurrency cap

  /** Step `m` looks at the pool and finds as many leases as the concurrency cap. */
  ghost predicate FoundFull(c: Config, steps: seq<Step>, t: Thread, p: PoolId, m: nat)
    requires IsRun(c, Start, steps) && m < |steps|
  {
    && steps[m].Scan? && steps[m].t == t && steps[m].p == p
    && p in Before(c, steps, m).pools && Before(c, steps, m).pools[p].running >= c.maxConcurrency > 0
  }

  /** The pick, a connect or not, has still to look at the pool, has taken it down, or has found it full. */
  ghost predicate Accounted(c: Config, steps: seq<Step>, t: Thread, i: nat, k: nat, p: PoolId)
    requires IsRun(c, Start, steps) && i < k <= |steps|
  {
    var pc := Before(c, steps, k).At(t);
    && pc.Scanning? && (pc.forConnection <==> steps[i].Connect?)
    && (p in Usable(Before(c, steps, k)) ==>
          || p in pc.todo || p in pc.active
          || (steps[i].Connect? && exists m :: i < m < k && FoundFull(c, steps, t, p, m)))
  }

  lemma ScanAccounts(c: Config, s: State, step: Step, p: PoolId)
    requires Enabled(c, s, step) && step.Scan?
    ensures
      var s', pc, pc' := Next(c, s, step), s.At(step.t), Next(c, s, step).At(step.t);
      && pc'.Scanning? && pc'.forConnection == pc.forConnection
      && (p in Usable(s') && (p in pc.todo || p in pc.active) ==>
            || p in pc'.todo || p in pc'.active
            || (step.p == p && pc.forConnection && s.pools[p].running >= c.maxConcurrency > 0))
  {
  }

  lemma AccountedOwn(c: Config, steps: seq<Step>, t: Thread, i: nat, k: nat, p: PoolId)
    requires IsRun(c, Start, steps) && i < k < |steps| && Accounted(c, steps, t, i, k, p)
    requires steps[k].t == t && steps[k].Scan?
    ensures Accounted(c, steps, t, i, k + 1, p)
  {
    hide Next, Enabled, Before, Usable;
    var s, step := Before(c, steps, k), steps[k];
    BeforeStep(c, steps, k);
    UsableBefore(c, steps, k);
    ScanAccounts(c, s, step, p);
    ScanSees(c, s, step);
    assert step.p == p && s.pools[p].running >= c.maxConcurrency > 0 ==> FoundFull(c, steps, t, p, k);
  }

  lemma UsableBefore(c: Config, steps: seq<Step>, k: nat)
    requires IsRun(c, Start, steps) && k < |steps| && !steps[k].Create?
    ensures Usable(Before(c, steps, k + 1)) <= Usable(Before(c, steps, k))
  {
    hide Before, Next, Enabled, Inv;
    BeforeStep(c, steps, k);
    BeforeInv(c, steps, k);
    StepUsable(c, Before(c, steps, k), steps[k]);
  }

  lemma AccountedOther(c: Config, steps: seq<Step>, t: Thread, i: nat, k: nat, p: PoolId)
    requires IsRun(c, Start, steps) && i < k < |steps| && Accounted(c, steps, t, i, k, p)
    requires steps[k].t != t && InPick(Before(c, steps, i), Before(c, steps, k), t)
    ensures Accounted(c, steps, t, i, k + 1, p)
  {
    hide InPick, Next, Enabled, Inv, Refs, Before, Usable, FoundFull;
    var s, step := Before(c, steps, k), steps[k];
    BeforeStep(c, steps, k);
    BeforeInv(c, steps, k);
    OthersDoNotCreate(c, Before(c, steps, i), s, step, t);
    UsableBefore(c, steps, k);
    StepOnlyMoves(c, s, step);
  }

  lemma {:induction false} PickAccounts(c: Config, steps: seq<Step>, t: Thread, i: nat, j: nat, k: nat, p: PoolId)
    requires IsRun(c, Start, steps) && PickOf(c, steps, t, i, j) && i < k <= j
    ensures Accounted(c, steps, t, i, k, p)
    decreases k
  {
    hide InPick, Next, Enabled, Before, Usable, FoundFull;
    if k - 1 == i {
      BeforeStep(c, steps, i);
      FirstAccounts(c, Before(c, steps, i), steps[i], p);
    } else {
      PickAccounts(c, steps, t, i, j, k - 1, p);
      hide Accounted;
      if steps[k - 1].t == t {
        AccountedOwn(c, steps, t, i, k - 1, p);
      } else {
        PickGoesOn(c, steps, t, i, j, k - 1);
        AccountedOther(c, steps, t, i, k - 1, p);
      }
    }
  }

  lemma ScanSees(c: Config, s: State, step: Step)
    requires Enabled(c, s, step) && step.Scan?
    ensures step.p in s.pools
  {
  }

  lemma OthersDoNotCreate(c: Config, s0: State, s: State, step: Step, t: Thread)
    requires Enabled(c, s, step) && Refs(s) && InPick(s0, s, t) && step.t != t
    ensures !step.Create?
  {
    assert step.t in s.threads && s.At(step.t).Scanning? ==> s.lock == Some(step.t);
  }

  lemma FirstAccounts(c: Config, s: State, step: Step, p: PoolId)
    requires Enabled(c, s, step) && (step.Connect? || step.Repick?)
    ensures
      var s' := Next(c, s, step);
      && s'.At(step.t).Scanning? && (s'.At(step.t).forConnection <==> step.Connect?)
      && (p in Usable(s') ==> p in s'.At(step.t).todo)
  {
  }

  /**
   Without a connection cap a pick opens a pool, or fails to, only if it is a connect and found every
   pool that is still not retired at the concurrency cap.
   */
  lemma OpensWhenFull(c: Config, steps: seq<Step>, t: Thread, i: nat, j: nat, p: PoolId)
    requires IsRun(c, Start, steps) && PickOf(c, steps, t, i, j) && c.maxConnections == 0 && !steps[j].Choose?
    requires p in Usable(Before(c, steps, j))
    ensures steps[i].Connect? && exists m :: i < m < j && FoundFull(c, steps, t, p, m)
  {
    hide Before, Usable, Inv, Refs, FoundFull;
    PickAccounts(c, steps, t, i, j, j, p);
    BeforeStep(c, steps, j);
  }

  /** A pool that a pick reuses was not retired when the pick started. */
  lemma ReusedWasUsable(c: Config, steps: seq<Step>, t: Thread, i: nat, j: nat)
    requires IsRun(c, Start, steps) && PickOf(c, steps, t, i, j) && steps[j].Choose?
    ensures steps[j].p in Usable(Before(c, steps, i))
  {
    hide Before, Usable, Inv, Refs;
    PickGoesOn(c, steps, t, i, j, j);
    BeforeStep(c, steps, j);
  }

  // ---------------------------------------------------------------- why a pool retires

  /** The pool has served all its connections, or as many requests as it may. */
  ghost predicate UsedUp(pool: Pool) {
    || (pool.reuseBudget.Some? && pool.served >= pool.reuseBudget.value)
    || (pool.requestBudget.Some? && pool.charged >= pool.requestBudget.value)
  }

  ghost predicate RequestsUsedUp(pool: Pool) {
    pool.requestBudget.Some? && pool.charged >= pool.requestBudget.value
  }

  /** The step looks at the pool: a pick that scans it, or a packet over a lease that uses it. */
  ghost predicate LooksAt(s: State, step: Step, p: PoolId) {
    || (step.Scan? && step.p == p)
    || (step.Packet? && s.At(step.t).Leased? && s.At(step.t).held.request == p)
  }

  /**
   In every run a step retires a pool exactly when it looks at it and finds it past its deadline or
   used up; a packet minds only the requests.
   */
  lemma RetiresIff(c: Config, steps: seq<Step>, k: nat, p: PoolId)
    requires IsRun(c, Start, steps) && k < |steps| && p in Before(c, steps, k).pools
    ensures
      var s := Before(c, steps, k);
      && p in Before(c, steps, k + 1).pools
      && (Before(c, steps, k + 1).pools[p].retired <==>
            || s.pools[p].retired
            || (LooksAt(s, steps[k], p) &&
                (steps[k].expired || (if steps[k].Scan? then UsedUp(s.pools[p]) else RequestsUsedUp(s.pools[p])))))
  {
    hide Before, Usable, Refs, HolderOk;
    BeforeInv(c, steps, k);
    BeforeStep(c, steps, k);
    Created(c, Before(c, steps, k), p);
  }
}
