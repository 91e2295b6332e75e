/**
 The DNS-over-UDP multiplexer (src/dns/transport.rs): many queries share one socket and are told
 apart by the transaction identifier put into each. The allocation loop is a method; the rest is a
 state machine whose steps are the sections run under the `pending` lock, the reader task's
 receives, and the points where a query waits, fails, times out or is dropped.
 */
module UdpMux {
  import opened Basics
  import opened Octets

  const IDS: nat := 65536
  const COUNTER: nat := 0x1_0000_0000

  type Id = x: nat | x < 65536

  type Query = nat
  /** The size of the reader's buffer. */
  const MAX_MESSAGE := 65535

  function IdOf(message: Bytes): Id
    requires |message| >= 2
  {
    U16(message, 0)
  }

  /** The message with another identifier. */
  function WithId(message: Bytes, id: Id): (r: Bytes)
    requires |message| >= 2
    ensures |r| == |message| && IdOf(r) == id && r[2..] == message[2..]
  {
    U16Bytes(id) + message[2..]
  }

  // ---------------------------------------------------------------- allocation

  /** `k` counter steps on, as a 16-bit identifier: the 32-bit wrap does not show. */
  function Ahead(next: nat, k: nat): Id {
    (next + k) % IDS
  }

  ghost predicate AllTaken(taken: set<Id>) {
    forall id: Id :: id in taken
  }

  /** The counter passes `k` taken identifiers and then a free one. */
  ghost predicate IsFirstFree(taken: set<Id>, next: nat, k: nat) {
    k < IDS && Ahead(next, k) !in taken && forall j: nat :: j < k ==> Ahead(next, j) in taken
  }

  lemma {:induction false} FirstFreeBelow(taken: set<Id>, next: nat, n: nat)
    requires n <= IDS && exists j: nat :: j < n && Ahead(next, j) !in taken
    ensures exists k: nat :: IsFirstFree(taken, next, k)
    decreases n
  {
    hide Ahead;
    if exists j: nat :: j < n - 1 && Ahead(next, j) !in taken {
      FirstFreeBelow(taken, next, n - 1);
    } else {
      assert IsFirstFree(taken, next, n - 1);
    }
  }

  /** 65536 counter steps reach every identifier. */
  lemma EveryIdAhead(next: nat, id: Id)
    ensures Ahead(next, (id - next) % IDS) == id
  {
    var q := (id - next) / IDS;
    assert id - next == IDS * q + (id - next) % IDS;
    assert next + (id - next) % IDS == IDS * (-q) + id;
  }

  ghost function FirstFree(taken: set<Id>, next: nat): (k: nat)
    requires !AllTaken(taken)
    ensures IsFirstFree(taken, next, k)
  {
    var id: Id :| id !in taken;
    EveryIdAhead(next, id);
    FirstFreeBelow(taken, next, IDS);
    var k: nat :| IsFirstFree(taken, next, k);
    k
  }

  /** The allocated identifier, if any is free, and the counter afterwards. */
  ghost function Choose(taken: set<Id>, next: nat): (Option<Id>, nat) {
    if AllTaken(taken) then (None, (next + IDS) % COUNTER)
    else
      var k := FirstFree(taken, next);
      (Some(Ahead(next, k)), (next + k + 1) % COUNTER)
  }

  lemma ChooseThere(taken: set<Id>, next: nat, k: nat)
    requires IsFirstFree(taken, next, k)
    ensures Choose(taken, next) == (Some(Ahead(next, k)), (next + k + 1) % COUNTER)
  {
    hide Ahead;
    var f := FirstFree(taken, next);
    assert f == k;
  }

  lemma ChosenIsFree(taken: set<Id>, next: nat)
    ensures Choose(taken, next).0.None? <==> AllTaken(taken)
    ensures Choose(taken, next).0.Some? ==> Choose(taken, next).0.value !in taken
  {
    hide Ahead;
  }

  lemma CounterStep(next: nat, k: nat)
    ensures ((next + k) % COUNTER) % IDS == Ahead(next, k)
    ensures ((next + k) % COUNTER + 1) % COUNTER == (next + k + 1) % COUNTER
  {
    var q := (next + k) / COUNTER;
    assert next + k == COUNTER * q + (next + k) % COUNTER;
    WholeTurns(65536 * q, (next + k) % COUNTER);
    assert next + k + 1 == COUNTER * q + ((next + k) % COUNTER + 1);
    WholeRounds(q, (next + k) % COUNTER + 1);
  }

  lemma WholeTurns(q: nat, r: nat)
    ensures (IDS * q + r) % IDS == r % IDS
  {
  }

  lemma WholeRounds(q: nat, r: nat)
    ensures (COUNTER * q + r) % COUNTER == r % COUNTER
  {
  }

  /** The allocation loop of `query`: it fails if and only if every identifier is taken. */
  method Allocate(taken: set<Id>, next: nat) returns (selected: Option<Id>, after: nat)
    requires next < COUNTER
    ensures (selected, after) == Choose(taken, next)
    ensures selected.None? <==> AllTaken(taken)
    ensures selected.Some? ==> selected.value !in taken
  {
    hide Ahead, FirstFree, Choose, AllTaken;
    ChosenIsFree(taken, next);
    selected, after := None, next;
    var i := 0;
    while i < IDS
      invariant 0 <= i <= IDS && after == (next + i) % COUNTER && selected == None
      invariant forall j: nat :: j < i ==> Ahead(next, j) in taken
    {
      CounterStep(next, i);
      var candidate := after % IDS;
      after := (after + 1) % COUNTER;
      if candidate !in taken {
        ChooseThere(taken, next, i);
        selected := Some(candidate);
        return;
      }
      i := i + 1;
    }
    Exhausted(taken, next);
  }

  lemma Exhausted(taken: set<Id>, next: nat)
    requires forall j: nat :: j < IDS ==> Ahead(next, j) in taken
    ensures Choose(taken, next) == (None, (next + IDS) % COUNTER)
  {
    hide Ahead;
    forall id: Id ensures id in taken {
      EveryIdAhead(next, id);
    }
  }

  // ---------------------------------------------------------------- the protocol

  datatype Outcome = Reply(message: Bytes) | Failed

  /** What the one-shot channel of a query carries: a message, an error, or a dropped sender. */
  datatype Note = Arrived(message: Bytes) | Broken

  datatype Phase = Sending | Waiting | GivingUp | Done(outcome: Outcome)

  datatype Record = Rejected | Record(request: Bytes, id: Id, phase: Phase)

  /** `pending` is the shared table; `notes` holds what was sent to each query. */
  datatype State = State(
    pending: map<Id, Query>, next: nat, buffer: Bytes, reading: bool,
    records: map<Query, Record>, notes: map<Query, Note>)
  {
    ghost predicate Is(q: Query, phase: Phase) {
      q in records && records[q].Record? && records[q].phase == phase
    }

    function Go(q: Query, phase: Phase): State
      requires q in records && records[q].Record?
    {
      this.(records := records[q := records[q].(phase := phase)])
    }

    /** Takes an identifier out of the table; its sender, if any, is used to send `note`. */
    function Take(id: Id, note: Note): State {
      if id in pending then this.(pending := pending - {id}, notes := notes[pending[id] := note]) else this
    }
  }

  ghost predicate Init(s: State) {
    s == State(map[], s.next, s.buffer, true, map[], map[]) && |s.buffer| == MAX_MESSAGE && s.next < COUNTER
  }

  datatype Step =
    | Begin(q: Query, request: Bytes)
    | Sent(q: Query)
    | SendFailed(q: Query)
    | TimedOut(q: Query)
    | Withdraw(q: Query)
    | Dropped(q: Query)
    | Finish(q: Query)
    | Receive(datagram: Bytes)
    | ReceiveFailed

  ghost predicate Enabled(s: State, step: Step) {
    match step
    case Begin(q, request) => q !in s.records
    case Sent(q) => s.Is(q, Sending)
    case SendFailed(q) => s.Is(q, Sending)
    case TimedOut(q) => s.Is(q, Waiting) && q !in s.notes
    case Withdraw(q) => s.Is(q, GivingUp)
    case Dropped(q) => q in s.records && s.records[q].Record? && !s.records[q].phase.Done?
    case Finish(q) => s.Is(q, Waiting) && q in s.notes
    case Receive(datagram) => s.reading && |datagram| <= |s.buffer|
    case ReceiveFailed => s.reading
  }

  /** The buffer after a receive: bytes beyond the datagram are left from earlier ones. */
  function Overlay(buffer: Bytes, datagram: Bytes): (r: Bytes)
    requires |datagram| <= |buffer|
    ensures |r| == |buffer| && r[..|datagram|] == datagram
  {
    datagram + buffer[|datagram|..]
  }

  /** The outcome of a query from what its channel carried. */
  function Answer(request: Bytes, note: Note): Outcome
    requires |request| >= 2
  {
    if note.Arrived? && |note.message| >= 2 then Reply(WithId(note.message, IdOf(request))) else Failed
  }

  ghost predicate Sane(s: State) {
    && |s.buffer| == MAX_MESSAGE
    && forall q :: q in s.records && s.records[q].Record? ==> |s.records[q].request| >= 2
  }

  ghost function Next(s: State, step: Step): State
    requires Sane(s) && Enabled(s, step)
  {
    match step
    case Begin(q, request) =>
      if |request| < 2 then s.(records := s.records[q := Rejected])
      else
        var (id, next) := Choose(s.pending.Keys, s.next);
        if id.None? then s.(records := s.records[q := Rejected], next := next)
        else s.(records := s.records[q := Record(request, id.value, Sending)], next := next,
                pending := s.pending[id.value := q])
    case Sent(q) => s.Go(q, Waiting)
    case SendFailed(q) => s.Go(q, GivingUp)
    case TimedOut(q) => s.Go(q, GivingUp)
    case Withdraw(q) => s.Take(s.records[q].id, Broken).Go(q, Done(Failed))
    case Dropped(q) => s.Go(q, Done(Failed))
    case Finish(q) => s.Go(q, Done(Answer(s.records[q].request, s.notes[q])))
    case Receive(datagram) =>
      var buffer := Overlay(s.buffer, datagram);
      s.(buffer := buffer).Take(IdOf(buffer), Arrived(datagram))
    case ReceiveFailed =>
      s.(reading := false, pending := map[],
         notes := s.notes + (map q | q in s.pending.Values :: Broken))
  }

  /** The query is in the table under its own identifier. */
  ghost predicate Registered(s: State, q: Query) {
    q in s.records && s.records[q].Record? && s.records[q].id in s.pending && s.pending[s.records[q].id] == q
  }

  /** A query whose future still runs is either in the table or was sent its one note. */
  ghost predicate QueryOk(s: State, q: Query) {
    && (q in s.records && s.records[q].Record? && !s.records[q].phase.Done? ==>
          (Registered(s, q) <==> q !in s.notes))
    && (Registered(s, q) ==> q !in s.notes)
    && (q in s.notes ==> q in s.records && s.records[q].Record?)
  }

  ghost predicate EntryOk(s: State, id: Id) {
    id in s.pending ==>
      && s.pending[id] in s.records
      && s.records[s.pending[id]].Record? && s.records[s.pending[id]].id == id
  }

  ghost predicate Inv(s: State) {
    && Sane(s)
    && (forall q: Query :: QueryOk(s, q))
    && (forall id: Id :: EntryOk(s, id))
  }

  lemma InitInv(s: State)
    requires Init(s)
    ensures Inv(s)
  {
  }

  lemma TakeKeeps(s: State, id: Id, note: Note)
    requires Inv(s)
    ensures Inv(s.Take(id, note))
  {
    var s' := s.Take(id, note);
    forall k: Id ensures EntryOk(s', k) { assert EntryOk(s, k); }
    forall q: Query ensures QueryOk(s', q) {
      assert QueryOk(s, q) && EntryOk(s, id);
    }
  }

  /** Moving a query on, short of bringing a finished one back. */
  lemma GoKeeps(s: State, q: Query, phase: Phase)
    requires Inv(s) && q in s.records && s.records[q].Record?
    requires s.records[q].phase.Done? ==> phase.Done?
    ensures Inv(s.Go(q, phase))
  {
    var s' := s.Go(q, phase);
    forall k: Id ensures EntryOk(s', k) { assert EntryOk(s, k); }
    forall p: Query ensures QueryOk(s', p) { assert QueryOk(s, p); }
  }

  lemma BeginKeeps(s: State, q: Query, request: Bytes)
    requires Inv(s) && q !in s.records
    ensures Inv(Next(s, Begin(q, request)))
  {
    hide Choose;
    var s' := Next(s, Begin(q, request));
    ChosenIsFree(s.pending.Keys, s.next);
    forall k: Id ensures EntryOk(s', k) { assert EntryOk(s, k); }
    forall p: Query ensures QueryOk(s', p) {
      assert QueryOk(s, p) && QueryOk(s, q);
    }
  }

  lemma BufferKeeps(s: State, buffer: Bytes)
    requires Inv(s) && |buffer| == MAX_MESSAGE
    ensures Inv(s.(buffer := buffer))
  {
    var s' := s.(buffer := buffer);
    forall k: Id ensures EntryOk(s', k) { assert EntryOk(s, k); }
    forall p: Query ensures QueryOk(s', p) { assert QueryOk(s, p); }
  }

  lemma ReceiveFailedKeeps(s: State)
    requires Inv(s) && s.reading
    ensures Inv(Next(s, ReceiveFailed))
  {
    var s' := Next(s, ReceiveFailed);
    forall p: Query ensures QueryOk(s', p) {
      assert QueryOk(s, p);
      if p in s.pending.Values {
        var id :| id in s.pending && s.pending[id] == p;
        assert EntryOk(s, id);
      }
    }
  }

  lemma StepKeepsInv(s: State, step: Step)
    requires Inv(s) && Enabled(s, step)
    ensures Inv(Next(s, step))
  {
    hide Choose, QueryOk, EntryOk;
    match step
    case Begin(q, request) => BeginKeeps(s, q, request);
    case Sent(q) => GoKeeps(s, q, Waiting);
    case SendFailed(q) => GoKeeps(s, q, GivingUp);
    case TimedOut(q) => GoKeeps(s, q, GivingUp);
    case Withdraw(q) =>
      TakeKeeps(s, s.records[q].id, Broken);
      GoKeeps(s.Take(s.records[q].id, Broken), q, Done(Failed));
    case Dropped(q) => GoKeeps(s, q, Done(Failed));
    case Finish(q) => GoKeeps(s, q, Done(Answer(s.records[q].request, s.notes[q])));
    case Receive(datagram) =>
      var buffer := Overlay(s.buffer, datagram);
      BufferKeeps(s, buffer);
      TakeKeeps(s.(buffer := buffer), IdOf(buffer), Arrived(datagram));
    case ReceiveFailed => ReceiveFailedKeeps(s);
  }

  // ---------------------------------------------------------------- one step

  /** The steps that take a query out of the table. */
  ghost predicate Unregisters(s: State, step: Step, q: Query)
    requires Sane(s) && Enabled(s, step) && Registered(s, q)
  {
    || (step.Receive? && IdOf(Overlay(s.buffer, step.datagram)) == s.records[q].id)
    || step.ReceiveFailed?
    || (step.Withdraw? && s.records[step.q].id == s.records[q].id)
  }

  lemma UnregisteredIff(s: State, step: Step, q: Query)
    requires Inv(s) && Enabled(s, step) && Registered(s, q)
    ensures !Registered(Next(s, step), q) <==> Unregisters(s, step, q)
  {
    hide Choose;
    if step.Begin? { ChosenIsFree(s.pending.Keys, s.next); }
  }

  /**
   A query that gives up takes another query out of the table exactly when that other query holds
   its old identifier; by then the first was sent an answer it no longer waits for.
   */
  lemma WithdrawalTakesAnother(s: State, p: Query, q: Query)
    requires Inv(s) && Enabled(s, Withdraw(p)) && Registered(s, q) && p != q
    ensures !Registered(Next(s, Withdraw(p)), q) <==> s.records[p].id == s.records[q].id
    ensures !Registered(Next(s, Withdraw(p)), q) ==> p in s.notes
  {
    hide Choose;
    UnregisteredIff(s, Withdraw(p), q);
    assert QueryOk(s, p);
  }

  /**
   A datagram ends a query it does not name exactly when it is too short to name any and the bytes
   left in the buffer complete the identifier; the query then fails.
   */
  lemma EndedByUnnamedIff(s: State, d: Bytes, q: Query)
    requires Inv(s) && Enabled(s, Receive(d)) && Registered(s, q)
    ensures var s', id := Next(s, Receive(d)), s.records[q].id;
            (!Registered(s', q) && (|d| < 2 || IdOf(d) != id)) <==>
              || (|d| == 0 && s.buffer[..2] == U16Bytes(id))
              || (|d| == 1 && [d[0], s.buffer[1]] == U16Bytes(id))
    ensures !Registered(Next(s, Receive(d)), q) && |d| < 2 ==>
              Answer(s.records[q].request, Next(s, Receive(d)).notes[q]) == Failed
  {
    hide Choose;
    UnregisteredIff(s, Receive(d), q);
    var id, buffer := s.records[q].id, Overlay(s.buffer, d);
    IdBytesIff(buffer[..2], id);
    assert IdOf(buffer) == IdOf(buffer[..2]);
    if |d| >= 2 { assert IdOf(buffer) == IdOf(d); }
    if |d| == 1 { assert buffer[..2] == [d[0], s.buffer[1]]; }
    if |d| == 0 { assert buffer[..2] == s.buffer[..2]; }
  }

  lemma IdBytesIff(b: Bytes, id: Id)
    requires |b| == 2
    ensures b == U16Bytes(id) <==> IdOf(b) == id
  {
    assert IdOf(b) / 256 == b[0] as nat && IdOf(b) % 256 == b[1] as nat;
  }

  /** A query begins under a free identifier exactly when it has an identifier of its own and one is free. */
  lemma BeginsIff(s: State, q: Query, request: Bytes)
    requires Inv(s) && Enabled(s, Begin(q, request))
    ensures
      var s' := Next(s, Begin(q, request));
      && (Registered(s', q) && s'.Is(q, Sending) <==> |request| >= 2 && !AllTaken(s.pending.Keys))
      && (Registered(s', q) ==> s'.records[q].request == request && s'.records[q].id !in s.pending)
      && (!Registered(s', q) ==> s'.records[q] == Rejected)
  {
    hide Choose, AllTaken;
    ChosenIsFree(s.pending.Keys, s.next);
  }

  // ---------------------------------------------------------------- runs

  ghost predicate Goes(s: State, step: Step, s': State) {
    Sane(s) && Enabled(s, step) && s' == Next(s, step)
  }

  ghost predicate IsRun(states: seq<State>, steps: seq<Step>) {
    && |states| == |steps| + 1
    && Init(states[0])
    && forall i :: 0 <= i < |steps| ==> Goes(states[i], steps[i], states[i + 1])
  }

  lemma {:induction false} RunInv(states: seq<State>, steps: seq<Step>, i: nat)
    requires IsRun(states, steps) && i < |states|
    ensures Inv(states[i])
  {
    hide Inv, Next, Enabled;
    if i == 0 {
      InitInv(states[0]);
    } else {
      RunInv(states, steps, i - 1);
      assert Goes(states[i - 1], steps[i - 1], states[i - 1 + 1]);
      StepKeepsInv(states[i - 1], steps[i - 1]);
    }
  }

  /** The query's future runs and nothing was sent to it yet. */
  ghost predicate Unanswered(s: State, q: Query) {
    q in s.records && s.records[q].Record? && !s.records[q].phase.Done? && q !in s.notes
  }

  /** Queries without an answer are all in the table, under different identifiers. */
  lemma DistinctIds(states: seq<State>, steps: seq<Step>, i: nat, a: Query, b: Query)
    requires IsRun(states, steps) && i < |states|
    requires Unanswered(states[i], a) && Unanswered(states[i], b) && a != b
    ensures Registered(states[i], a) && Registered(states[i], b)
    ensures states[i].records[a].id != states[i].records[b].id
  {
    hide IsRun;
    RunInv(states, steps, i);
    assert QueryOk(states[i], a) && QueryOk(states[i], b);
  }

  /** A step leaves finished queries, sent notes, requests and identifiers alone. */
  ghost predicate Stable(s: State, s': State, q: Query) {
    && (q in s.records ==> q in s'.records && s'.records[q].Record? == s.records[q].Record?)
    && (q in s.records && s.records[q].Record? ==>
          && s'.records[q].request == s.records[q].request
          && s'.records[q].id == s.records[q].id
          && (s.records[q].phase.Done? ==> s'.records[q] == s.records[q]))
    && (q in s.notes ==> q in s'.notes && s'.notes[q] == s.notes[q])
  }

  lemma StepStable(s: State, step: Step, q: Query)
    requires Inv(s) && Enabled(s, step)
    ensures Stable(s, Next(s, step), q)
  {
    hide Choose;
    assert QueryOk(s, q);
    match step
    case Receive(d) => assert EntryOk(s, IdOf(Overlay(s.buffer, d)));
    case Withdraw(p) => assert EntryOk(s, s.records[p].id);
    case ReceiveFailed =>
      if q in s.pending.Values {
        var id :| id in s.pending && s.pending[id] == q;
        assert EntryOk(s, id);
      }
    case _ =>
  }

  /** A query completes at most once: neither its outcome nor its note ever changes. */
  lemma {:induction false} CompletedOnce(states: seq<State>, steps: seq<Step>, i: nat, j: nat, q: Query)
    requires IsRun(states, steps) && i <= j < |states|
    ensures Stable(states[i], states[j], q)
    decreases j
  {
    hide Inv, Next, Enabled;
    if i < j {
      CompletedOnce(states, steps, i, j - 1, q);
      RunInv(states, steps, j - 1);
      assert Goes(states[j - 1], steps[j - 1], states[j - 1 + 1]);
      StepStable(states[j - 1], steps[j - 1], q);
    }
  }

  /** Step `i` received a datagram for the query while the query was in the table. */
  ghost predicate Delivered(states: seq<State>, steps: seq<Step>, i: nat, q: Query, d: Bytes)
    requires IsRun(states, steps)
  {
    && i < |steps| && steps[i] == Receive(d)
    && Registered(states[i], q)
    && Sane(states[i]) && |d| <= |states[i].buffer|
    && IdOf(Overlay(states[i].buffer, d)) == states[i].records[q].id
  }

  lemma NewNote(s: State, step: Step, q: Query)
    requires Inv(s) && Enabled(s, step)
    requires q !in s.notes && q in Next(s, step).notes && Next(s, step).notes[q].Arrived?
    ensures step.Receive? && Next(s, step).notes[q] == Arrived(step.datagram)
    ensures Registered(s, q) && IdOf(Overlay(s.buffer, step.datagram)) == s.records[q].id
  {
    hide Choose;
    if step.Receive? { assert EntryOk(s, IdOf(Overlay(s.buffer, step.datagram))); }
  }

  lemma {:induction false} NoteDelivered(states: seq<State>, steps: seq<Step>, n: nat, q: Query)
    requires IsRun(states, steps) && n < |states|
    requires q in states[n].notes && states[n].notes[q].Arrived?
    ensures exists i: nat :: i < n && Delivered(states, steps, i, q, states[n].notes[q].message)
    decreases n
  {
    hide Inv, Next, Enabled;
    if n > 0 {
      var m := n - 1;
      RunInv(states, steps, m);
      assert Goes(states[m], steps[m], states[m + 1]);
      if q in states[m].notes {
        StepStable(states[m], steps[m], q);
        NoteDelivered(states, steps, m, q);
      } else {
        NewNote(states[m], steps[m], q);
        EnabledReceive(states[m], steps[m]);
        assert Delivered(states, steps, m, q, states[n].notes[q].message);
      }
    }
  }

  lemma EnabledReceive(s: State, step: Step)
    requires Enabled(s, step) && step.Receive?
    ensures |step.datagram| <= |s.buffer|
  {
  }

  /** A finished query's outcome comes from its note. */
  ghost predicate ReplyFromNote(s: State, q: Query) {
    q in s.records && s.records[q].Record? && s.records[q].phase.Done? && s.records[q].phase.outcome.Reply? ==>
      && q in s.notes && |s.records[q].request| >= 2
      && s.records[q].phase.outcome == Answer(s.records[q].request, s.notes[q])
  }

  lemma StepReplies(s: State, step: Step, q: Query)
    requires Inv(s) && Enabled(s, step) && ReplyFromNote(s, q)
    ensures ReplyFromNote(Next(s, step), q)
  {
    hide Choose, Answer;
    StepStable(s, step, q);
  }

  lemma {:induction false} RunReplies(states: seq<State>, steps: seq<Step>, n: nat, q: Query)
    requires IsRun(states, steps) && n < |states|
    ensures ReplyFromNote(states[n], q)
  {
    hide Inv, Next, Enabled, Answer;
    if n > 0 {
      RunReplies(states, steps, n - 1, q);
      RunInv(states, steps, n - 1);
      assert Goes(states[n - 1], steps[n - 1], states[n - 1 + 1]);
      StepReplies(states[n - 1], steps[n - 1], q);
    }
  }

  /**
   A successful reply is a datagram that carried the query's internal identifier and arrived while
   the query was in the table, with the identifier put back to the one the caller used.
   */
  lemma ReplyIsAnswer(states: seq<State>, steps: seq<Step>, n: nat, q: Query, reply: Bytes)
    requires IsRun(states, steps) && n < |states|
    requires states[n].Is(q, Done(Reply(reply)))
    ensures exists i: nat, d ::
              && i < n && Delivered(states, steps, i, q, d)
              && |d| >= 2 && IdOf(d) == states[n].records[q].id
              && |states[n].records[q].request| >= 2
              && reply == WithId(d, IdOf(states[n].records[q].request))
  {
    hide Inv, Next, Enabled;
    RunReplies(states, steps, n, q);
    NoteDelivered(states, steps, n, q);
    var d := states[n].notes[q].message;
    var i: nat :| i < n && Delivered(states, steps, i, q, d);
    CompletedOnce(states, steps, i, n, q);
    assert IdOf(Overlay(states[i].buffer, d)) == IdOf(d);
  }

  lemma DeliveredNote(states: seq<State>, steps: seq<Step>, i: nat, q: Query, d: Bytes)
    requires IsRun(states, steps) && Delivered(states, steps, i, q, d)
    ensures q in states[i + 1].notes && states[i + 1].notes[q] == Arrived(d)
  {
    assert Goes(states[i], steps[i], states[i + 1]);
  }

  /**
   Conversely, once a datagram of at least two octets was delivered to a query, the query no longer
   times out: while it waits it can finish, and it then succeeds with that datagram.
   */
  lemma DeliveredSucceeds(states: seq<State>, steps: seq<Step>, i: nat, j: nat, q: Query, d: Bytes)
    requires IsRun(states, steps) && i < j < |states| && Delivered(states, steps, i, q, d) && |d| >= 2
    requires states[j].Is(q, Waiting)
    ensures Enabled(states[j], Finish(q)) && !Enabled(states[j], TimedOut(q))
    ensures
      var request := states[i].records[q].request;
      && Sane(states[j]) && |request| >= 2
      && Next(states[j], Finish(q)).Is(q, Done(Reply(U16Bytes(IdOf(request)) + d[2..])))
  {
    hide IsRun;
    DeliveredNote(states, steps, i, q, d);
    CompletedOnce(states, steps, i, j, q);
    CompletedOnce(states, steps, i + 1, j, q);
    RunInv(states, steps, j);
  }

  // ---------------------------------------------------------------- two runs that go wrong

  ghost predicate Reachable(s: State) {
    exists states, steps :: IsRun(states, steps) && states[|steps|] == s
  }

  lemma ReachableInit(s: State)
    requires Init(s)
    ensures Reachable(s)
  {
    assert IsRun([s], []) && [s][0] == s;
  }

  lemma ReachableStep(s: State, step: Step, s': State)
    requires Reachable(s) && Goes(s, step, s')
    ensures Reachable(s')
  {
    hide Goes, Init;
    var states, steps :| IsRun(states, steps) && states[|steps|] == s;
    var states', steps' := states + [s'], steps + [step];
    forall i | 0 <= i < |steps'| ensures Goes(states'[i], steps'[i], states'[i + 1]) {
      if i < |steps| { assert Goes(states[i], steps[i], states[i + 1]); }
    }
    assert IsRun(states', steps') && states'[|steps'|] == s';
  }

  const Request: Bytes := [9, 9]

  /** The reader's buffer before it received anything; only its first two octets matter here. */
  ghost predicate Zeroed(buffer: Bytes) {
    |buffer| == MAX_MESSAGE && buffer[0] == 0 && buffer[1] == 0
  }

  /** One query in the table, under identifier zero. */
  ghost function One(zeros: Bytes, phase: Phase): State {
    State(map[0 := 0], 1, zeros, true, map[0 := Record(Request, 0, phase)], map[])
  }

  lemma ChooseNow(taken: set<Id>, next: nat)
    requires next % IDS !in taken
    ensures Choose(taken, next) == (Some(next % IDS), (next + 1) % COUNTER)
  {
    assert IsFirstFree(taken, next, 0);
    ChooseThere(taken, next, 0);
  }

  lemma OneReachable(zeros: Bytes)
    requires Zeroed(zeros)
    ensures Reachable(One(zeros, Sending)) && Reachable(One(zeros, Waiting))
  {
    hide Reachable;
    var start := State(map[], 0, zeros, true, map[], map[]);
    ReachableInit(start);
    ChooseNow({}, 0);
    assert start.pending.Keys == {};
    assert Next(start, Begin(0, Request)) == One(zeros, Sending);
    ReachableStep(start, Begin(0, Request), One(zeros, Sending));
    assert Next(One(zeros, Sending), Sent(0)) == One(zeros, Waiting);
    ReachableStep(One(zeros, Sending), Sent(0), One(zeros, Waiting));
  }

  /** An empty datagram, which names no query, ends one. */
  lemma EmptyDatagramEndsQuery(zeros: Bytes)
    requires Zeroed(zeros)
    ensures Reachable(One(zeros, Waiting)) && Enabled(One(zeros, Waiting), Receive([]))
    ensures Registered(One(zeros, Waiting), 0)
    ensures Sane(One(zeros, Waiting)) && 0 in Next(One(zeros, Waiting), Receive([])).notes
    ensures Answer(Request, Next(One(zeros, Waiting), Receive([])).notes[0]) == Failed
  {
    hide Reachable;
    OneReachable(zeros);
    assert Overlay(zeros, []) == zeros;
  }

  ghost function CrowdPending(n: nat): (m: map<Id, Query>)
    requires n < IDS
    ensures forall id :: id in m <==> 1 <= id <= n
  {
    if n == 0 then map[] else CrowdPending(n - 1)[n := n]
  }

  ghost function CrowdRecords(n: nat): (m: map<Query, Record>)
    requires n < IDS
    ensures forall q: Query :: q in m <==> q <= n
    ensures forall q :: q in m ==> m[q].Record? && m[q].request == Request
    ensures m[0] == Record(Request, 0, GivingUp)
  {
    if n == 0 then map[0 := Record(Request, 0, GivingUp)] else CrowdRecords(n - 1)[n := Record(Request, n, Sending)]
  }

  /** Query 0 gave up but was answered before it withdrew; queries 1 to n hold identifiers 1 to n. */
  ghost function Crowd(zeros: Bytes, n: nat): State
    requires n < IDS && |zeros| == MAX_MESSAGE
  {
    State(CrowdPending(n), n + 1, Overlay(zeros, [0, 0]), true, CrowdRecords(n), map[0 := Arrived([0, 0])])
  }

  lemma FirstCrowd(zeros: Bytes)
    requires Zeroed(zeros)
    ensures Reachable(Crowd(zeros, 0))
  {
    hide Reachable;
    OneReachable(zeros);
    assert Next(One(zeros, Waiting), TimedOut(0)) == One(zeros, GivingUp);
    ReachableStep(One(zeros, Waiting), TimedOut(0), One(zeros, GivingUp));
    assert IdOf(Overlay(zeros, [0, 0])) == 0;
    assert Next(One(zeros, GivingUp), Receive([0, 0])) == Crowd(zeros, 0);
    ReachableStep(One(zeros, GivingUp), Receive([0, 0]), Crowd(zeros, 0));
  }

  lemma CrowdGrows(zeros: Bytes, n: nat)
    requires n + 1 < IDS && |zeros| == MAX_MESSAGE
    ensures Goes(Crowd(zeros, n), Begin(n + 1, Request), Crowd(zeros, n + 1))
  {
    hide Choose;
    var s := Crowd(zeros, n);
    ChooseNow(s.pending.Keys, n + 1);
    assert (n + 1) % IDS == n + 1 && (n + 2) % COUNTER == n + 2;
  }

  lemma {:induction false} CrowdReachable(zeros: Bytes, n: nat)
    requires n < IDS && Zeroed(zeros)
    decreases n
    ensures Reachable(Crowd(zeros, n))
  {
    hide Reachable, Goes, Crowd;
    if n == 0 {
      FirstCrowd(zeros);
    } else {
      CrowdReachable(zeros, n - 1);
      CrowdGrows(zeros, n - 1);
      ReachableStep(Crowd(zeros, n - 1), Begin(n, Request), Crowd(zeros, n));
    }
  }

  /** The full crowd, and one more query, which gets identifier zero again. */
  ghost function Full(zeros: Bytes, n: nat): State
    requires |zeros| == MAX_MESSAGE && n + 1 == IDS
  {
    var s := Crowd(zeros, n);
    s.(pending := s.pending[0 := IDS], next := IDS + 1, records := s.records[IDS := Record(Request, 0, Sending)])
  }

  /** The first query's withdrawal takes the last query out of the table. */
  lemma WithdrawalBreaksAnother(zeros: Bytes, n: nat)
    requires Zeroed(zeros) && n + 1 == IDS
    ensures
      var full := Full(zeros, n);
      && Reachable(full) && Inv(full) && Enabled(full, Withdraw(0)) && Registered(full, IDS)
      && !Registered(Next(full, Withdraw(0)), IDS)
  {
    hide Reachable, Choose;
    var s, full := Crowd(zeros, n), Full(zeros, n);
    CrowdReachable(zeros, n);
    ChooseNow(s.pending.Keys, IDS);
    assert Next(s, Begin(IDS, Request)) == full;
    ReachableStep(s, Begin(IDS, Request), full);
    ReachableInv(full);
    WithdrawalTakesAnother(full, 0, IDS);
  }

  lemma ReachableInv(s: State)
    requires Reachable(s)
    ensures Inv(s)
  {
    hide Inv;
    var states, steps :| IsRun(states, steps) && states[|steps|] == s;
    RunInv(states, steps, |steps|);
  }
}
