/**
 Whole runs of the session slots (src/server.rs): who is refused a session, and which sessions are
 taken out of the map. These are the ones a removal was started for, and the ones that no download
 had connected to when their timer fired.
 */
module SessionRuns {
  import opened Basics
  import opened SessionSlots

  // ---------------------------------------------------------------- states along a run

  lemma RunCons(c: Config, s: State, step: Step, rest: seq<Step>)
    requires Enabled(s, step) && IsRun(c, Next(c, s, step), rest)
    ensures IsRun(c, s, [step] + rest) && After(c, s, [step] + rest) == After(c, Next(c, s, step), rest)
  {
    assert ([step] + rest)[1..] == rest;
  }

  lemma {:induction false} RunPrefix(c: Config, s: State, steps: seq<Step>, i: nat)
    requires IsRun(c, s, steps) && i <= |steps|
    ensures IsRun(c, s, steps[..i])
    decreases i
  {
    hide Next, Enabled;
    if i > 0 {
      RunPrefix(c, Next(c, s, steps[0]), steps[1..], i - 1);
      RunCons(c, s, steps[0], steps[1..][..i - 1]);
      assert steps[..i] == [steps[0]] + steps[1..][..i - 1];
    }
  }

  /** The state before step `i` of a run from the start. */
  ghost function Before(c: Config, steps: seq<Step>, i: nat): State
    requires IsRun(c, Start, steps) && i <= |steps|
  {
    RunPrefix(c, Start, steps, i);
    After(c, Start, steps[..i])
  }

  lemma {:induction false} AfterLast(c: Config, s: State, steps: seq<Step>, i: nat)
    requires IsRun(c, s, steps) && i < |steps|
    ensures IsRun(c, s, steps[..i]) && IsRun(c, s, steps[..i + 1]) && Enabled(After(c, s, steps[..i]), steps[i])
    ensures After(c, s, steps[..i + 1]) == Next(c, After(c, s, steps[..i]), steps[i])
    decreases i
  {
    hide Next, Enabled;
    RunPrefix(c, s, steps, i);
    RunPrefix(c, s, steps, i + 1);
    if i == 0 {
      assert steps[..1] == [steps[0]] && steps[..1][1..] == [];
    } else {
      var s', tail := Next(c, s, steps[0]), steps[1..];
      AfterLast(c, s', tail, i - 1);
      RunCons(c, s, steps[0], tail[..i - 1]);
      RunCons(c, s, steps[0], tail[..i]);
      assert steps[..i] == [steps[0]] + tail[..i - 1] && steps[..i + 1] == [steps[0]] + tail[..i];
    }
  }

  lemma BeforeStep(c: Config, steps: seq<Step>, i: nat)
    requires IsRun(c, Start, steps) && i < |steps|
    ensures Enabled(Before(c, steps, i), steps[i])
    ensures Before(c, steps, i + 1) == Next(c, Before(c, steps, i), steps[i])
  {
    hide Next, Enabled;
    AfterLast(c, Start, steps, i);
  }

  lemma BeforeFirst(c: Config, steps: seq<Step>)
    requires IsRun(c, Start, steps)
    ensures Before(c, steps, 0) == Start
  {
    assert steps[..0] == [];
  }

  // ---------------------------------------------------------------- who is refused

  lemma BeforeInv(c: Config, steps: seq<Step>, i: nat)
    requires IsRun(c, Start, steps) && i <= |steps|
    ensures Inv(c, Before(c, steps, i))
  {
    assert Outstanding(map[]) == {};
    RunPrefix(c, Start, steps, i);
    CounterExact(c, Start, steps[..i]);
  }

  /** The thread was just told that it gets no session. */
  ghost predicate Refuses(c: Config, steps: seq<Step>, i: nat, t: Thread, id: Id)
    requires IsRun(c, Start, steps) && i < |steps|
  {
    Before(c, steps, i + 1).At(t) == Returned(id, None) != Before(c, steps, i).At(t)
  }

  /**
   In every run a thread is refused a session exactly when it looks up an id that is too long, or
   reserves while mapped sessions and outstanding slots have reached the maximum.
   */
  lemma RefusedIff(c: Config, steps: seq<Step>, i: nat, t: Thread, id: Id)
    requires IsRun(c, Start, steps) && i < |steps|
    ensures
      var s := Before(c, steps, i);
      Refuses(c, steps, i, t, id) <==>
        || (steps[i] == Lookup(t, id) && |id| > c.maxIdLength)
        || (&& steps[i] == Reserve(t) && s.At(t) == Missed(id)
            && |s.sessions| + |Outstanding(s.threads)| == c.maxSessions)
  {
    hide Before, Outstanding;
    BeforeInv(c, steps, i);
    BeforeStep(c, steps, i);
  }

  // ---------------------------------------------------------------- sessions in use

  /** Step `k` connected the session, which has been in the map ever since. */
  ghost predicate ConnectedAt(c: Config, steps: seq<Step>, i: nat, id: Id, k: nat)
    requires IsRun(c, Start, steps) && i <= |steps|
  {
    k < i && steps[k] == Connect(id) && forall m :: k < m <= i ==> id in Before(c, steps, m).sessions
  }

  /** The session mapped under `id` has been connected since it entered the map. */
  ghost predicate InUse(c: Config, steps: seq<Step>, i: nat, id: Id)
    requires IsRun(c, Start, steps) && i <= |steps|
  {
    exists k: nat :: ConnectedAt(c, steps, i, id, k)
  }

  lemma StepConnected(c: Config, s: State, step: Step, id: Id)
    requires Enabled(s, step) && id in Next(c, s, step).sessions
    ensures Next(c, s, step).sessions[id].connected <==>
            step == Connect(id) || (id in s.sessions && s.sessions[id].connected)
  {
  }

  lemma ConnectedNext(c: Config, steps: seq<Step>, i: nat, id: Id)
    requires IsRun(c, Start, steps) && i < |steps| && id in Before(c, steps, i + 1).sessions
    ensures InUse(c, steps, i + 1, id) <==>
            steps[i] == Connect(id) || (id in Before(c, steps, i).sessions && InUse(c, steps, i, id))
  {
    hide Before;
    if steps[i] == Connect(id) {
      assert ConnectedAt(c, steps, i + 1, id, i);
    }
    if InUse(c, steps, i, id) {
      var k: nat :| ConnectedAt(c, steps, i, id, k);
      assert ConnectedAt(c, steps, i + 1, id, k);
    }
    if InUse(c, steps, i + 1, id) && steps[i] != Connect(id) {
      var k: nat :| ConnectedAt(c, steps, i + 1, id, k);
      assert ConnectedAt(c, steps, i, id, k);
    }
  }

  /** The flag of a mapped session says whether it is in use. */
  lemma {:induction false} FlagIsUse(c: Config, steps: seq<Step>, i: nat, id: Id)
    requires IsRun(c, Start, steps) && i <= |steps| && id in Before(c, steps, i).sessions
    ensures Before(c, steps, i).sessions[id].connected <==> InUse(c, steps, i, id)
    decreases i
  {
    hide Before, InUse, Next, Enabled;
    if i == 0 {
      BeforeFirst(c, steps);
    } else {
      BeforeStep(c, steps, i - 1);
      StepConnected(c, Before(c, steps, i - 1), steps[i - 1], id);
      ConnectedNext(c, steps, i - 1, id);
      if id in Before(c, steps, i - 1).sessions {
        FlagIsUse(c, steps, i - 1, id);
      }
    }
  }

  /** In every run the timer starts a removal exactly when its id is mapped and not in use. */
  lemma TimerRemovesIff(c: Config, steps: seq<Step>, i: nat)
    requires IsRun(c, Start, steps) && i < |steps| && steps[i].TimerCheck?
    ensures
      var t, id := steps[i].t, steps[i].id;
      Before(c, steps, i + 1).At(t) == Removing(id) <==>
        id in Before(c, steps, i).sessions && !InUse(c, steps, i, id)
  {
    hide Before, InUse;
    BeforeStep(c, steps, i);
    var s, id := Before(c, steps, i), steps[i].id;
    if id in s.sessions { FlagIsUse(c, steps, i, id); }
  }

  // ---------------------------------------------------------------- how sessions leave

  /** Step `m` set the thread on removing `id`: on purpose, or as a timer that found it not in use. */
  ghost predicate StartsRemoval(c: Config, steps: seq<Step>, t: Thread, id: Id, m: nat)
    requires IsRun(c, Start, steps) && m < |steps|
  {
    || steps[m] == StartRemoval(t, id)
    || (steps[m] == TimerCheck(t, id) && id in Before(c, steps, m).sessions && !InUse(c, steps, m, id))
  }

  lemma RemovingComesFrom(c: Config, s: State, step: Step, t: Thread, id: Id)
    requires Enabled(s, step) && Next(c, s, step).At(t) == Removing(id)
    ensures s.At(t) == Removing(id) || step == StartRemoval(t, id) || step == TimerCheck(t, id)
    ensures step == TimerCheck(t, id) ==> s.At(t) != Removing(id)
  {
  }

  lemma {:induction false} RemovalStarted(c: Config, steps: seq<Step>, i: nat, t: Thread, id: Id) returns (m: nat)
    requires IsRun(c, Start, steps) && i <= |steps| && Before(c, steps, i).At(t) == Removing(id)
    ensures m < i && StartsRemoval(c, steps, t, id, m)
    decreases i
  {
    hide Before, InUse, Next, Enabled;
    m := 0;
    if i == 0 {
      BeforeFirst(c, steps);
    } else {
      BeforeStep(c, steps, i - 1);
      var s := Before(c, steps, i - 1);
      RemovingComesFrom(c, s, steps[i - 1], t, id);
      if s.At(t) == Removing(id) {
        m := RemovalStarted(c, steps, i - 1, t, id);
      } else {
        m := i - 1;
        if steps[m].TimerCheck? { TimerRemovesIff(c, steps, m); }
      }
    }
  }

  /**
   A session leaves the map only by a removal that was started on purpose, or by a timer that fired
   while it was not in use; so if it is in use when it goes, the timer fired before it was connected.
   */
  lemma LeavesOnlyBy(c: Config, steps: seq<Step>, i: nat, id: Id) returns (m: nat)
    requires IsRun(c, Start, steps) && i < |steps|
    requires id in Before(c, steps, i).sessions && id !in Before(c, steps, i + 1).sessions
    ensures steps[i].Remove? && m < i && StartsRemoval(c, steps, steps[i].t, id, m)
    ensures forall k: nat :: ConnectedAt(c, steps, i, id, k) ==> steps[m] == StartRemoval(steps[i].t, id) || m < k
  {
    hide Before;
    BeforeStep(c, steps, i);
    OnlyRemoveRemoves(c, Before(c, steps, i), steps[i], id);
    m := RemovalStarted(c, steps, i, steps[i].t, id);
    forall k: nat | ConnectedAt(c, steps, i, id, k) && k <= m
      ensures steps[m] == StartRemoval(steps[i].t, id)
    {
      if k < m { assert ConnectedAt(c, steps, m, id, k); }
    }
  }

  lemma OnlyRemoveRemoves(c: Config, s: State, step: Step, id: Id)
    requires Enabled(s, step) && id in s.sessions && id !in Next(c, s, step).sessions
    ensures step.Remove? && s.At(step.t) == Removing(id)
  {
  }

  // ---------------------------------------------------------------- orphans give their slot back

  /** No step of `t` between the two. */
  ghost predicate Untouched(steps: seq<Step>, t: Thread, i: nat, j: nat)
    requires j <= |steps|
  {
    forall k :: i < k < j ==> steps[k].Connect? || steps[k].t != t
  }

  lemma {:induction false} StaysPut(c: Config, steps: seq<Step>, t: Thread, i: nat, j: nat)
    requires IsRun(c, Start, steps) && i < j <= |steps| && Untouched(steps, t, i, j)
    ensures Before(c, steps, j).At(t) == Before(c, steps, i + 1).At(t)
    decreases j
  {
    hide Before, Next, Enabled;
    if j > i + 1 {
      StaysPut(c, steps, t, i, j - 1);
      BeforeStep(c, steps, j - 1);
      OthersStay(c, Before(c, steps, j - 1), steps[j - 1], t);
    }
  }

  lemma OthersStay(c: Config, s: State, step: Step, t: Thread)
    requires Enabled(s, step) && (step.Connect? || step.t != t)
    ensures Next(c, s, step).At(t) == s.At(t)
  {
  }

  /**
   When the timer fires on a session not in use, the next two steps of its thread, whatever runs
   between, take the id out of the map and give the slot back, unless another removal came first.
   */
  lemma OrphanFreed(c: Config, steps: seq<Step>, i: nat, j: nat, l: nat)
    requires IsRun(c, Start, steps) && i < j < l < |steps| && steps[i].TimerCheck?
    requires
      var t, id := steps[i].t, steps[i].id;
      && id in Before(c, steps, i).sessions && !InUse(c, steps, i, id)
      && Untouched(steps, t, i, j) && Untouched(steps, t, j, l)
      && !steps[j].Connect? && steps[j].t == t && !steps[l].Connect? && steps[l].t == t
    ensures
      var t, id := steps[i].t, steps[i].id;
      && steps[j] == Remove(t) && id !in Before(c, steps, j + 1).sessions
      && if id in Before(c, steps, j).sessions
         then
           && steps[l] == Release(t) && Before(c, steps, l + 1).active == Before(c, steps, l).active - 1
           && Before(c, steps, l + 1).At(t).Idle?
         else Before(c, steps, l).At(t).Idle?
  {
    hide Before, InUse;
    var t := steps[i].t;
    TimerRemovesIff(c, steps, i);
    StaysPut(c, steps, t, i, j);
    BeforeStep(c, steps, j);
    StaysPut(c, steps, t, j, l);
    BeforeStep(c, steps, l);
  }
}
