/**
 Session slots of the XHTTP server (`get_session`, `remove_session` and the orphan timer,
 src/server.rs) as a state machine. Each map operation and each atomic counter operation is
 one step; steps of any number of threads interleave freely.
 */
module SessionSlots {
  import opened Basics

  type Id = string
  type Thread = nat

  /** A session object; `serial` tells objects apart. */
  datatype Session = Session(serial: nat, connected: bool)

  /** Where a thread stands between two steps. */
  datatype Pc =
    | Idle
    | Missed(id: Id)                       // looked up, not found: about to reserve a slot
    | Reserved(id: Id, created: nat)         // holds a slot and a new session object
    | GivingBack(id: Id, found: nat)       // lost the creation race: about to give the slot back
    | Returned(id: Id, result: Option<nat>)
    | Removing(id: Id)                     // about to remove the id from the map
    | Releasing                            // removed it: about to release its slot

  datatype Config = Config(maxSessions: nat, maxIdLength: nat)

  datatype State = State(
    sessions: map<Id, Session>, active: int, threads: map<Thread, Pc>, serials: nat)
  {
    function At(t: Thread): Pc { if t in threads then threads[t] else Idle }

    function Go(t: Thread, pc: Pc): State { this.(threads := threads[t := pc]) }
  }

  const Start := State(map[], 0, map[], 0)

  datatype Step =
    | Lookup(t: Thread, id: Id)
    | Reserve(t: Thread)
    | Enter(t: Thread)
    | GiveBack(t: Thread)
    | Leave(t: Thread)
    | Connect(id: Id)
    | TimerCheck(t: Thread, id: Id)
    | StartRemoval(t: Thread, id: Id)
    | Remove(t: Thread)
    | Release(t: Thread)

  predicate Enabled(s: State, step: Step) {
    match step
    case Lookup(t, _) => s.At(t).Idle?
    case Reserve(t) => s.At(t).Missed?
    case Enter(t) => s.At(t).Reserved?
    case GiveBack(t) => s.At(t).GivingBack?
    case Leave(t) => s.At(t).Returned?
    case Connect(id) => id in s.sessions
    case TimerCheck(t, _) => s.At(t).Idle?
    case StartRemoval(t, _) => s.At(t).Idle?
    case Remove(t) => s.At(t).Removing?
    case Release(t) => s.At(t).Releasing?
  }

  function Next(c: Config, s: State, step: Step): State
    requires Enabled(s, step)
  {
    match step
    case Lookup(t, id) =>
      if |id| > c.maxIdLength then s.Go(t, Returned(id, None))
      else if id in s.sessions then s.Go(t, Returned(id, Some(s.sessions[id].serial)))
      else s.Go(t, Missed(id))
    case Reserve(t) =>
      if s.active < c.maxSessions
      then s.Go(t, Reserved(s.At(t).id, s.serials)).(active := s.active + 1, serials := s.serials + 1)
      else s.Go(t, Returned(s.At(t).id, None))
    case Enter(t) =>
      var id := s.At(t).id;
      if id in s.sessions then s.Go(t, GivingBack(id, s.sessions[id].serial))
      else s.Go(t, Returned(id, Some(s.At(t).created))).(sessions := s.sessions[id := Session(s.At(t).created, false)])
    case GiveBack(t) => s.Go(t, Returned(s.At(t).id, Some(s.At(t).found))).(active := s.active - 1)
    case Leave(t) => s.Go(t, Idle)
    case Connect(id) => s.(sessions := s.sessions[id := s.sessions[id].(connected := true)])
    case TimerCheck(t, id) =>
      if id in s.sessions && !s.sessions[id].connected then s.Go(t, Removing(id)) else s
    case StartRemoval(t, id) => s.Go(t, Removing(id))
    case Remove(t) =>
      var id := s.At(t).id;
      if id in s.sessions then s.Go(t, Releasing).(sessions := s.sessions - {id}) else s.Go(t, Idle)
    case Release(t) => s.Go(t, Idle).(active := s.active - 1)
  }

  /** `steps` can be taken one after the other from `s`. */
  predicate IsRun(c: Config, s: State, steps: seq<Step>)
    decreases |steps|
  {
    steps == [] || (Enabled(s, steps[0]) && IsRun(c, Next(c, s, steps[0]), steps[1..]))
  }

  function After(c: Config, s: State, steps: seq<Step>): State
    requires IsRun(c, s, steps)
    decreases |steps|
  {
    if steps == [] then s else After(c, Next(c, s, steps[0]), steps[1..])
  }

  // ---------------------------------------------------------------- slot accounting

  /** The thread holds a slot that belongs to no session in the map. */
  predicate HoldsSlot(pc: Pc) {
    pc.Reserved? || pc.GivingBack? || pc.Releasing?
  }

  /** Slots reserved but not yet in the map, or taken out of it but not yet released. */
  function Outstanding(threads: map<Thread, Pc>): set<Thread> {
    set t | t in threads && HoldsSlot(threads[t])
  }

  ghost predicate Inv(c: Config, s: State) {
    && s.active == |s.sessions| + |Outstanding(s.threads)|
    && s.active <= c.maxSessions
  }

  lemma OutstandingOthers(threads: map<Thread, Pc>, t: Thread, pc: Pc)
    ensures Outstanding(threads[t := pc]) - {t} == Outstanding(threads) - {t}
    ensures t in Outstanding(threads[t := pc]) <==> HoldsSlot(pc)
    ensures t in Outstanding(threads) <==> t in threads && HoldsSlot(threads[t])
  {
    hide HoldsSlot;
  }

  /** Moving one thread changes the outstanding slots by that thread at most. */
  lemma OutstandingMove(threads: map<Thread, Pc>, t: Thread, pc: Pc)
    ensures
      var before := t in threads && HoldsSlot(threads[t]);
      |Outstanding(threads[t := pc])|
      == |Outstanding(threads)| + (if HoldsSlot(pc) then 1 else 0) - (if before then 1 else 0)
  {
    hide Outstanding, HoldsSlot;
    OutstandingOthers(threads, t, pc);
    SizeWithout(Outstanding(threads), t);
    SizeWithout(Outstanding(threads[t := pc]), t);
  }

  function Slots(pc: Pc): int { if HoldsSlot(pc) then 1 else 0 }

  /** Sessions, counter and one thread may change together as long as the slots balance. */
  lemma Balanced(c: Config, s: State, t: Thread, s': State)
    requires Inv(c, s) && s'.threads == s.threads[t := s'.At(t)] && s'.active <= c.maxSessions
    requires s'.active - s.active == |s'.sessions| - |s.sessions| + Slots(s'.At(t)) - Slots(s.At(t))
    ensures Inv(c, s')
  {
    OutstandingMove(s.threads, t, s'.At(t));
  }

  /** Steps that leave the map alone. */
  lemma ThreadStepKeepsInv(c: Config, s: State, step: Step, t: Thread)
    requires Inv(c, s) && Enabled(s, step) && !step.Connect? && t == step.t
    requires Next(c, s, step).sessions == s.sessions && (step.TimerCheck? ==> Next(c, s, step) != s)
    ensures Inv(c, Next(c, s, step))
  {
    hide Inv, Outstanding;
    InvBounds(c, s);
    Balanced(c, s, t, Next(c, s, step));
  }

  lemma InvBounds(c: Config, s: State)
    requires Inv(c, s)
    ensures s.active <= c.maxSessions
  {
  }

  lemma EnterKeepsInv(c: Config, s: State, t: Thread)
    requires Inv(c, s) && Enabled(s, Enter(t))
    ensures Inv(c, Next(c, s, Enter(t)))
  {
    hide Inv, Outstanding;
    InvBounds(c, s);
    MapSizes(s.sessions, s.At(t).id, Session(s.At(t).created, false));
    Balanced(c, s, t, Next(c, s, Enter(t)));
  }

  lemma RemoveKeepsInv(c: Config, s: State, t: Thread)
    requires Inv(c, s) && Enabled(s, Remove(t))
    ensures Inv(c, Next(c, s, Remove(t)))
  {
    hide Inv, Outstanding;
    InvBounds(c, s);
    MapSizes(s.sessions, s.At(t).id, Session(0, false));
    Balanced(c, s, t, Next(c, s, Remove(t)));
  }

  lemma ConnectKeepsInv(c: Config, s: State, id: Id)
    requires Inv(c, s) && Enabled(s, Connect(id))
    ensures Inv(c, Next(c, s, Connect(id)))
  {
    hide Outstanding;
    MapSizes(s.sessions, id, s.sessions[id].(connected := true));
  }

  lemma StepKeepsInv(c: Config, s: State, step: Step)
    requires Inv(c, s) && Enabled(s, step)
    ensures Inv(c, Next(c, s, step))
  {
    hide Inv;
    match step
    case Connect(id) => ConnectKeepsInv(c, s, id);
    case Enter(t) => EnterKeepsInv(c, s, t);
    case Remove(t) => RemoveKeepsInv(c, s, t);
    case _ => if Next(c, s, step) != s { ThreadStepKeepsInv(c, s, step, step.t); }
  }

  /**
   In every interleaving the counter equals the mapped sessions plus the outstanding slots and
   never exceeds the maximum; so neither does the number of sessions.
   */
  lemma {:induction false} CounterExact(c: Config, s: State, steps: seq<Step>)
    requires Inv(c, s) && IsRun(c, s, steps)
    ensures Inv(c, After(c, s, steps))
    decreases |steps|
  {
    if steps != [] {
      StepKeepsInv(c, s, steps[0]);
      CounterExact(c, Next(c, s, steps[0]), steps[1..]);
    }
  }

  /** From the start; once all threads are done the counter is the number of sessions. */
  lemma CounterFromStart(c: Config, steps: seq<Step>)
    requires IsRun(c, Start, steps)
    ensures
      var s := After(c, Start, steps);
      && |s.sessions| <= s.active <= c.maxSessions
      && (Outstanding(s.threads) == {} ==> s.active == |s.sessions|)
  {
    assert Outstanding(map[]) == {};
    CounterExact(c, Start, steps);
  }

  // ---------------------------------------------------------------- racing creators

  /** The session a step obtains for `id`, if it obtains one. */
  function Obtains(c: Config, s: State, step: Step, id: Id): Option<nat>
    requires Enabled(s, step)
  {
    match step
    case Lookup(t, i) =>
      if i == id && |id| <= c.maxIdLength && id in s.sessions then Some(s.sessions[id].serial) else None
    case Enter(t) =>
      if s.At(t).id != id then None
      else if id in s.sessions then Some(s.sessions[id].serial)
      else Some(s.At(t).created)
    case _ => None
  }

  /** A thread that obtains a session will return it, and it is the one in the map. */
  lemma ObtainedIsMapped(c: Config, s: State, step: Step, id: Id)
    requires Enabled(s, step) && Obtains(c, s, step, id).Some?
    ensures
      var s' := Next(c, s, step);
      var v := Obtains(c, s, step, id).value;
      && id in s'.sessions && s'.sessions[id].serial == v
      && (s'.At(step.t) == Returned(id, Some(v)) || s'.At(step.t) == GivingBack(id, v))
  {
  }

  /** No step of the run takes `id` out of the map. */
  predicate Unremoved(c: Config, s: State, steps: seq<Step>, id: Id)
    requires IsRun(c, s, steps)
    decreases |steps|
  {
    steps == [] ||
    (!(steps[0].Remove? && s.At(steps[0].t).id == id) && Unremoved(c, Next(c, s, steps[0]), steps[1..], id))
  }

  lemma {:induction false} SessionStays(c: Config, s: State, steps: seq<Step>, id: Id)
    requires IsRun(c, s, steps) && Unremoved(c, s, steps, id) && id in s.sessions
    ensures
      var s' := After(c, s, steps);
      id in s'.sessions && s'.sessions[id].serial == s.sessions[id].serial
    decreases |steps|
  {
    if steps != [] {
      SessionStays(c, Next(c, s, steps[0]), steps[1..], id);
    }
  }

  /**
   Two creators of one id, whatever else runs between them, obtain the same session unless the
   id was removed in between.
   */
  lemma RacersAgree(c: Config, s: State, first: Step, between: seq<Step>, second: Step, id: Id)
    requires Enabled(s, first) && Obtains(c, s, first, id).Some?
    requires IsRun(c, Next(c, s, first), between) && Unremoved(c, Next(c, s, first), between, id)
    requires Enabled(After(c, Next(c, s, first), between), second)
    requires Obtains(c, After(c, Next(c, s, first), between), second, id).Some?
    ensures Obtains(c, s, first, id) == Obtains(c, After(c, Next(c, s, first), between), second, id)
  {
    ObtainedIsMapped(c, s, first, id);
    SessionStays(c, Next(c, s, first), between, id);
  }
}
