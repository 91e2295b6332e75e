/**
 The XMUX connection pools (src/xmux.rs) as a state machine. The manager lock is held from the
 start of a pick to its end; every pool lock section is one step, so charges, packets and
 drops of other threads interleave with a pick in progress. Deadlines may pass at any time.
 */
module Xmux {
  import opened Basics

  type Thread = nat
  type PoolId = nat

  /**
   A pool. `reuseBudget`, `requestBudget`, `served` and `charged` record the sampled budgets
   and how many connections and requests were taken from them.
   */
  datatype Pool = Pool(
    running: nat, reuse: Option<nat>, requests: Option<nat>, retired: bool,
    reuseBudget: Option<nat>, requestBudget: Option<nat>, served: nat, charged: nat)

  datatype Lease = Lease(connection: PoolId, request: PoolId)

  datatype Pc =
    | Idle
    | Scanning(forConnection: bool, lease: Option<Lease>, todo: set<PoolId>, active: set<PoolId>, count: nat)
    | Chosen(forConnection: bool, lease: Option<Lease>, pool: PoolId)       // reuse not yet taken
    | Uncharged(forConnection: bool, lease: Option<Lease>, pool: PoolId)    // picked, lock released
    | Leased(held: Lease)
    | NeedPool(held: Lease)

  /** Sampled once; zero means no cap. */
  datatype Config = Config(maxConcurrency: nat, maxConnections: nat)

  datatype State = State(
    pools: map<PoolId, Pool>, listed: set<PoolId>, lock: Option<Thread>, threads: map<Thread, Pc>, created: nat)
  {
    function At(t: Thread): Pc { if t in threads then threads[t] else Idle }

    function Go(t: Thread, pc: Pc): State { this.(threads := threads[t := pc]) }

    function Put(p: PoolId, pool: Pool): State { this.(pools := pools[p := pool]) }
  }

  const Start := State(map[], {}, None, map[], 0)

  datatype Step =
    | Connect(t: Thread)
    | Repick(t: Thread)
    | Scan(t: Thread, p: PoolId, expired: bool)
    | Choose(t: Thread, p: PoolId)
    | Create(t: Thread, dropped: set<PoolId>, reuse: nat, requests: nat)
    | CreateFails(t: Thread, dropped: set<PoolId>)
    | Take(t: Thread)
    | Charge(t: Thread)
    | Packet(t: Thread, expired: bool)
    | Drop(t: Thread)

  function Budget(value: nat): Option<nat> {
    if value != 0 then Some(value) else None
  }

  function Spend(left: Option<nat>): Option<nat> {
    if left.Some? && left.value > 0 then Some(left.value - 1) else left
  }

  function ChargeRequest(pool: Pool): Pool {
    pool.(requests := Spend(pool.requests), charged := pool.charged + 1)
  }

  predicate Exhausted(pool: Pool) {
    pool.reuse == Some(0) || pool.requests == Some(0)
  }

  /** The new-pool test at the end of a scan. */
  predicate WantsNew(c: Config, pc: Pc)
    requires pc.Scanning?
  {
    pc.active == {} || (c.maxConnections > 0 && pc.count < c.maxConnections)
  }

  /** Pools `retain` may drop: retired and without leases. */
  predicate Droppable(s: State, dropped: set<PoolId>) {
    forall p :: p in dropped ==> p in s.pools && s.pools[p].retired && s.pools[p].running == 0
  }

  predicate Enabled(c: Config, s: State, step: Step) {
    var pc := s.At(step.t);
    match step
    case Connect(_) => pc.Idle? && s.lock.None?
    case Repick(_) => pc.NeedPool? && s.lock.None?
    case Scan(_, p, _) => pc.Scanning? && p in pc.todo && p in s.pools
    case Choose(_, p) => pc.Scanning? && pc.todo == {} && !WantsNew(c, pc) && p in pc.active
    case Create(_, dropped, _, _) => pc.Scanning? && pc.todo == {} && WantsNew(c, pc) && Droppable(s, dropped)
    case CreateFails(_, dropped) => pc.Scanning? && pc.todo == {} && WantsNew(c, pc) && Droppable(s, dropped)
    case Take(_) => pc.Chosen? && pc.pool in s.pools
    case Charge(_) => pc.Uncharged? && pc.pool in s.pools && (!pc.forConnection ==> pc.lease.Some?)
    case Packet(_, _) => pc.Leased? && pc.held.request in s.pools
    case Drop(_) => pc.Leased? && pc.held.connection in s.pools
  }

  function Next(c: Config, s: State, step: Step): State
    requires Enabled(c, s, step)
  {
    var t, pc := step.t, s.At(step.t);
    match step
    case Connect(_) => s.Go(t, Scanning(true, None, s.listed, {}, 0)).(lock := Some(t))
    case Repick(_) => s.Go(t, Scanning(false, Some(pc.held), s.listed, {}, 0)).(lock := Some(t))
    case Scan(_, p, expired) =>
      var pool := s.pools[p];
      if pool.retired || Exhausted(pool) || expired
      then s.Go(t, pc.(todo := pc.todo - {p})).Put(p, pool.(retired := true))
      else
        var usable := !pc.forConnection || c.maxConcurrency == 0 || pool.running < c.maxConcurrency;
        s.Go(t, pc.(todo := pc.todo - {p}, count := pc.count + 1,
                    active := if usable then pc.active + {p} else pc.active))
    case Choose(_, p) => s.Go(t, Chosen(pc.forConnection, pc.lease, p))
    case Create(_, dropped, reuse, requests) =>
      s.Go(t, Chosen(pc.forConnection, pc.lease, s.created))
       .Put(s.created, Pool(0, Budget(reuse), Budget(requests), false, Budget(reuse), Budget(requests), 0, 0))
       .(listed := s.listed - dropped + {s.created}, created := s.created + 1)
    case CreateFails(_, dropped) =>
      s.Go(t, if pc.lease.Some? then Leased(pc.lease.value) else Idle).(listed := s.listed - dropped, lock := None)
    case Take(_) =>
      var pool := s.pools[pc.pool];
      s.Go(t, Uncharged(pc.forConnection, pc.lease, pc.pool))
       .Put(pc.pool, if pc.forConnection then pool.(reuse := Spend(pool.reuse), served := pool.served + 1) else pool)
       .(lock := None)
    case Charge(_) =>
      var pool := ChargeRequest(s.pools[pc.pool]);
      s.Go(t, Leased(if pc.forConnection then Lease(pc.pool, pc.pool) else pc.lease.value.(request := pc.pool)))
       .Put(pc.pool, if pc.forConnection then pool.(running := pool.running + 1) else pool)
    case Packet(_, expired) =>
      var p := pc.held.request;
      if s.pools[p].retired || s.pools[p].requests == Some(0) || expired
      then s.Go(t, NeedPool(pc.held)).Put(p, s.pools[p].(retired := true))
      else s.Put(p, ChargeRequest(s.pools[p]))
    case Drop(_) =>
      var p := pc.held.connection;
      s.Go(t, Idle).Put(p, s.pools[p].(running := Max(s.pools[p].running - 1, 0)))
  }

  predicate IsRun(c: Config, s: State, steps: seq<Step>)
    decreases |steps|
  {
    steps == [] || (Enabled(c, s, steps[0]) && IsRun(c, Next(c, s, steps[0]), steps[1..]))
  }

  function After(c: Config, s: State, steps: seq<Step>): State
    requires IsRun(c, s, steps)
    decreases |steps|
  {
    if steps == [] then s else After(c, Next(c, s, steps[0]), steps[1..])
  }

  // ---------------------------------------------------------------- ledgers of one pool

  /** What is left is the sampled budget minus what was taken. */
  ghost predicate Ledger(pool: Pool) {
    && pool.reuse.Some? == pool.reuseBudget.Some?
    && (pool.reuse.Some? ==> pool.served + pool.reuse.value == pool.reuseBudget.value)
    && pool.requests.Some? == pool.requestBudget.Some?
    && (pool.requests.Some? ==> pool.requests.value == Max(pool.requestBudget.value - pool.charged, 0))
  }

  /** The lock holder's view: only it takes reuse, so what it saw as usable stays usable. */
  ghost predicate HolderOk(c: Config, s: State, t: Thread, pc: Pc) {
    && (pc.Scanning? || pc.Chosen? ==> s.lock == Some(t))
    && (pc.Scanning? ==>
          && pc.active !! pc.todo && pc.active <= s.pools.Keys && pc.todo <= s.pools.Keys
          && (forall p :: p in pc.active ==> s.pools[p].reuse != Some(0))
          && (c.maxConcurrency == 0 ==> pc.count == |pc.active| && Usable(s) <= pc.active + pc.todo))
    && (pc.Chosen? ==> pc.pool in s.pools && s.pools[pc.pool].reuse != Some(0))
  }

  /** The listed pools that are not retired. */
  function Usable(s: State): set<PoolId> {
    set p | p in s.listed && p in s.pools && !s.pools[p].retired
  }

  ghost predicate Inv(c: Config, s: State) {
    && (forall p :: p in s.pools ==> Ledger(s.pools[p]) && p < s.created)
    && s.listed <= s.pools.Keys
    && (forall t :: t in s.threads ==> HolderOk(c, s, t, s.threads[t]))
    && (c.maxConnections > 0 && c.maxConcurrency == 0 ==> |Usable(s)| <= c.maxConnections)
  }

  lemma StepLedger(c: Config, s: State, step: Step, p: PoolId)
    requires Enabled(c, s, step) && (p in s.pools ==> Ledger(s.pools[p]) && p < s.created)
    requires s.At(step.t).Chosen? ==> s.At(step.t).pool in s.pools && s.pools[s.At(step.t).pool].reuse != Some(0)
    ensures p in Next(c, s, step).pools ==> Ledger(Next(c, s, step).pools[p]) && p < Next(c, s, step).created
  {
  }

  lemma StepListed(c: Config, s: State, step: Step)
    requires Enabled(c, s, step) && s.listed <= s.pools.Keys
    ensures Next(c, s, step).listed <= Next(c, s, step).pools.Keys
  {
  }

  lemma StepLedgers(c: Config, s: State, step: Step)
    requires Inv(c, s) && Enabled(c, s, step)
    ensures forall p :: p in Next(c, s, step).pools ==>
      Ledger(Next(c, s, step).pools[p]) && p < Next(c, s, step).created
    ensures Next(c, s, step).listed <= Next(c, s, step).pools.Keys
  {
    hide Usable, Next, Enabled, Ledger;
    assert step.t in s.threads ==> HolderOk(c, s, step.t, s.threads[step.t]);
    forall p | p in Next(c, s, step).pools
      ensures Ledger(Next(c, s, step).pools[p]) && p < Next(c, s, step).created
    {
      StepLedger(c, s, step, p);
    }
    StepListed(c, s, step);
  }

  /** Non-retired pools only appear by creation. */
  lemma StepUsable(c: Config, s: State, step: Step)
    requires Inv(c, s) && Enabled(c, s, step)
    ensures Usable(Next(c, s, step)) <= Usable(s) + (if step.Create? then {s.created} else {})
  {
  }

  lemma StepCap(c: Config, s: State, step: Step)
    requires Inv(c, s) && Enabled(c, s, step) && c.maxConnections > 0 && c.maxConcurrency == 0
    ensures |Usable(Next(c, s, step))| <= c.maxConnections
  {
    StepUsable(c, s, step);
    var before, after := Usable(s), Usable(Next(c, s, step));
    hide Usable;
    if step.Create? {
      var pc := s.At(step.t);
      assert HolderOk(c, s, step.t, s.threads[step.t]);
      assert before <= pc.active + {};
      SubsetSize(before, pc.active);
      SubsetSize(after, before + {s.created});
    } else {
      SubsetSize(after, before);
    }
  }

  /** What a step may do to the pools another thread looks at. */
  ghost predicate Kept(s: State, s': State, t: Thread) {
    && s.pools.Keys <= s'.pools.Keys
    && (s.lock.Some? && s.lock.value != t ==>
          && s'.lock == s.lock
          && (forall p :: p in s.pools ==> s'.pools[p].reuse == s.pools[p].reuse)
          && Usable(s') <= Usable(s))
    && (forall u :: u in s'.threads && u != t ==> u in s.threads && s'.threads[u] == s.threads[u])
  }

  /** No step loses a pool or touches another thread. */
  lemma StepLocal(c: Config, s: State, step: Step)
    requires Enabled(c, s, step)
    ensures s.pools.Keys <= Next(c, s, step).pools.Keys
    ensures forall u :: u in Next(c, s, step).threads && u != step.t ==>
              u in s.threads && Next(c, s, step).threads[u] == s.threads[u]
  {
  }

  /** While another thread picks, the lock and all reuse budgets stay as they are. */
  lemma StepOutsidePick(c: Config, s: State, step: Step)
    requires Enabled(c, s, step) && s.lock.Some? && s.lock.value != step.t
    requires !s.At(step.t).Scanning? && !s.At(step.t).Chosen?
    ensures Next(c, s, step).lock == s.lock && !step.Create?
    ensures forall p :: p in s.pools && p in Next(c, s, step).pools ==>
      Next(c, s, step).pools[p].reuse == s.pools[p].reuse
  {
  }

  lemma StepKept(c: Config, s: State, step: Step)
    requires Inv(c, s) && Enabled(c, s, step)
    ensures Kept(s, Next(c, s, step), step.t)
  {
    hide Usable, Next, Enabled, Ledger;
    StepUsable(c, s, step);
    StepLocal(c, s, step);
    assert step.t in s.threads ==> HolderOk(c, s, step.t, s.threads[step.t]);
    if s.lock.Some? && s.lock.value != step.t {
      StepOutsidePick(c, s, step);
    }
  }

  lemma OthersHolderOk(c: Config, s: State, s': State, t: Thread)
    requires Inv(c, s) && Kept(s, s', t)
    ensures forall u :: u in s'.threads && u != t ==> HolderOk(c, s', u, s'.threads[u])
  {
    hide Usable;
    forall u | u in s'.threads && u != t ensures HolderOk(c, s', u, s'.threads[u]) {
      assert HolderOk(c, s, u, s.threads[u]);
    }
  }

  lemma ScanHolderOk(c: Config, s: State, step: Step)
    requires step.Scan? && step.t in s.threads && HolderOk(c, s, step.t, s.threads[step.t]) && Enabled(c, s, step)
    requires Usable(Next(c, s, step)) <= Usable(s)
    ensures HolderOk(c, Next(c, s, step), step.t, Next(c, s, step).At(step.t))
  {
    var s' := Next(c, s, step);
    if s'.pools[step.p].retired {
      assert step.p !in Usable(s');
    }
  }

  lemma PickHolderOk(c: Config, s: State, step: Step)
    requires !step.Scan? && Enabled(c, s, step) && s.listed <= s.pools.Keys
    requires step.t in s.threads ==> HolderOk(c, s, step.t, s.threads[step.t])
    requires Usable(Next(c, s, step)) <= Usable(s) + (if step.Create? then {s.created} else {})
    ensures HolderOk(c, Next(c, s, step), step.t, Next(c, s, step).At(step.t))
  {
  }

  lemma StepHolderOk(c: Config, s: State, step: Step)
    requires Inv(c, s) && Enabled(c, s, step)
    ensures HolderOk(c, Next(c, s, step), step.t, Next(c, s, step).At(step.t))
  {
    hide HolderOk, Usable, Next, Ledger;
    StepUsable(c, s, step);
    if step.Scan? { ScanHolderOk(c, s, step); } else { PickHolderOk(c, s, step); }
  }

  lemma StepKeepsInv(c: Config, s: State, step: Step)
    requires Inv(c, s) && Enabled(c, s, step)
    ensures Inv(c, Next(c, s, step))
  {
    hide Ledger, HolderOk, Usable;
    StepLedgers(c, s, step);
    StepKept(c, s, step);
    OthersHolderOk(c, s, Next(c, s, step), step.t);
    StepHolderOk(c, s, step);
    if c.maxConnections > 0 && c.maxConcurrency == 0 {
      StepCap(c, s, step);
    }
  }

  lemma {:induction false} RunKeepsInv(c: Config, s: State, steps: seq<Step>)
    requires Inv(c, s) && IsRun(c, s, steps)
    ensures Inv(c, After(c, s, steps))
    decreases |steps|
  {
    hide Inv;
    if steps != [] {
      StepKeepsInv(c, s, steps[0]);
      RunKeepsInv(c, Next(c, s, steps[0]), steps[1..]);
    }
  }

  lemma StartInv(c: Config)
    ensures Inv(c, Start)
  {
    assert Usable(Start) == {};
  }

  /** In every interleaving each pool serves at most its sampled number of connections. */
  lemma ReuseWithinBudget(c: Config, steps: seq<Step>, p: PoolId)
    requires IsRun(c, Start, steps) && p in After(c, Start, steps).pools
    ensures
      var pool := After(c, Start, steps).pools[p];
      pool.reuseBudget.Some? ==> pool.served <= pool.reuseBudget.value
  {
    StartInv(c);
    RunKeepsInv(c, Start, steps);
  }

  /** `XmuxConfig::validate`: at most one of the two caps is set. */
  predicate Exclusive(c: Config) {
    c.maxConcurrency == 0 || c.maxConnections == 0
  }

  /** With exclusive caps, pools that are not retired never exceed the connection cap. */
  lemma PoolsWithinCap(c: Config, steps: seq<Step>)
    requires IsRun(c, Start, steps) && Exclusive(c) && c.maxConnections > 0
    ensures |Usable(After(c, Start, steps))| <= c.maxConnections
  {
    StartInv(c);
    RunKeepsInv(c, Start, steps);
  }

  // ---------------------------------------------------------------- no thread gets stuck

  ghost predicate LeaseOk(s: State, lease: Lease) {
    lease.connection in s.pools && lease.request in s.pools
  }

  /** Pools a thread refers to exist, and the lock is held by a thread inside a pick. */
  ghost predicate RefsOk(s: State, pc: Pc) {
    match pc
    case Idle => true
    case Scanning(conn, lease, todo, active, _) =>
      && (lease.Some? ==> LeaseOk(s, lease.value)) && (conn || lease.Some?)
      && todo <= s.pools.Keys && active <= s.pools.Keys
    case Chosen(conn, lease, pool) =>
      (lease.Some? ==> LeaseOk(s, lease.value)) && (conn || lease.Some?) && pool in s.pools
    case Uncharged(conn, lease, pool) =>
      (lease.Some? ==> LeaseOk(s, lease.value)) && (conn || lease.Some?) && pool in s.pools
    case Leased(held) => LeaseOk(s, held)
    case NeedPool(held) => LeaseOk(s, held)
  }

  ghost predicate Refs(s: State) {
    && s.listed <= s.pools.Keys
    && (forall t :: t in s.threads ==> RefsOk(s, s.threads[t]))
    && LockOk(s)
  }

  lemma StepOwnRefs(c: Config, s: State, step: Step)
    requires Enabled(c, s, step) && s.listed <= s.pools.Keys && (step.t in s.threads ==> RefsOk(s, s.threads[step.t]))
    ensures RefsOk(Next(c, s, step), Next(c, s, step).At(step.t))
    ensures s.pools.Keys <= Next(c, s, step).pools.Keys
    ensures Next(c, s, step).threads == s.threads[step.t := Next(c, s, step).At(step.t)] ||
      Next(c, s, step).threads == s.threads
  {
  }

  lemma RefsGrow(s: State, s': State, pc: Pc)
    requires RefsOk(s, pc) && s.pools.Keys <= s'.pools.Keys
    ensures RefsOk(s', pc)
  {
  }

  /** The lock is held by the one thread that picks. */
  ghost predicate LockOk(s: State) {
    && (s.lock.Some? ==> s.At(s.lock.value).Scanning? || s.At(s.lock.value).Chosen?)
    && (forall t :: t in s.threads && (s.threads[t].Scanning? || s.threads[t].Chosen?) ==> s.lock == Some(t))
  }

  lemma StepLock(c: Config, s: State, step: Step)
    requires Enabled(c, s, step) && LockOk(s)
    ensures LockOk(Next(c, s, step))
  {
  }

  lemma StepKeepsRefs(c: Config, s: State, step: Step)
    requires Refs(s) && Enabled(c, s, step)
    ensures Refs(Next(c, s, step))
  {
    hide Next, Enabled, RefsOk, LockOk;
    var s' := Next(c, s, step);
    StepOwnRefs(c, s, step);
    StepListed(c, s, step);
    StepLock(c, s, step);
    forall u | u in s'.threads && u != step.t ensures RefsOk(s', s'.threads[u]) {
      RefsGrow(s, s', s.threads[u]);
    }
  }

  lemma {:induction false} RunKeepsRefs(c: Config, s: State, steps: seq<Step>)
    requires Refs(s) && IsRun(c, s, steps)
    ensures Refs(After(c, s, steps))
    decreases |steps|
  {
    hide Refs;
    if steps != [] {
      StepKeepsRefs(c, s, steps[0]);
      RunKeepsRefs(c, Next(c, s, steps[0]), steps[1..]);
    }
  }

  ghost predicate CanStep(c: Config, s: State, t: Thread) {
    exists step: Step :: step.t == t && Enabled(c, s, step)
  }

  /** In every reachable state each busy thread can move, unless it waits for a pick in progress, whose thread can. */
  lemma NeverStuck(c: Config, steps: seq<Step>, t: Thread)
    requires IsRun(c, Start, steps)
    ensures
      var s := After(c, Start, steps);
      CanStep(c, s, t) || (s.lock.Some? && s.lock.value != t && CanStep(c, s, s.lock.value))
  {
    assert Refs(Start);
    RunKeepsRefs(c, Start, steps);
    var s := After(c, Start, steps);
    CanMove(c, s, t);
    if s.lock.Some? {
      CanMove(c, s, s.lock.value);
    }
  }

  lemma CanMove(c: Config, s: State, t: Thread)
    requires Refs(s)
    ensures ((s.At(t).Idle? || s.At(t).NeedPool?) ==> s.lock.None?) ==> CanStep(c, s, t)
  {
    assert t in s.threads ==> RefsOk(s, s.threads[t]);
    match s.At(t)
    case Idle => assert s.lock.None? ==> Enabled(c, s, Connect(t));
    case NeedPool(_) => assert s.lock.None? ==> Enabled(c, s, Repick(t));
    case Scanning(_, _, todo, active, _) =>
      if todo != {} {
        var p :| p in todo;
        assert Enabled(c, s, Scan(t, p, false));
      } else if WantsNew(c, s.At(t)) {
        assert Enabled(c, s, Create(t, {}, 0, 0));
      } else {
        var p :| p in active;
        assert Enabled(c, s, Choose(t, p));
      }
    case Chosen(_, _, _) => assert Enabled(c, s, Take(t));
    case Uncharged(_, _, _) => assert Enabled(c, s, Charge(t));
    case Leased(_) => assert Enabled(c, s, Drop(t));
  }
}
