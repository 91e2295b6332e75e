/**
 The UDP NAT table (src/proxy/udp_nat.rs): mapping keys and response filtering in the sense of
 sections 4.1 and 5 of RFC 4787, idle expiry, and eviction of the least recently used mapping.

 One clock reading is used per call, and the 64-bit generation counter does not wrap.
 */
module UdpNat {
  import opened Basics

  type Time = int

  datatype SocketAddr = SocketAddr(ip: IpAddr, port: int)

  datatype Behavior = EndpointIndependent | AddressDependent | AddressAndPortDependent

  datatype MappingKey =
    | Endpoint(source: SocketAddr)
    | Address(source: SocketAddr, ip: IpAddr)
    | AddressAndPort(source: SocketAddr, destination: SocketAddr)

  /** `key_for`. */
  function KeyFor(mapping: Behavior, source: SocketAddr, destination: SocketAddr): MappingKey {
    match mapping
    case EndpointIndependent => Endpoint(source)
    case AddressDependent => Address(source, destination.ip)
    case AddressAndPortDependent => AddressAndPort(source, destination)
  }

  /**
   The endpoints are alike for the behavior: for mapping, packets of one source to both share a
   mapping; for filtering, a send to the one lets the other respond.
   */
  predicate Alike(behavior: Behavior, d: SocketAddr, d': SocketAddr) {
    match behavior
    case EndpointIndependent => true
    case AddressDependent => d.ip == d'.ip
    case AddressAndPortDependent => d == d'
  }

  lemma SharedMapping(mapping: Behavior, s: SocketAddr, d: SocketAddr, s': SocketAddr, d': SocketAddr)
    ensures KeyFor(mapping, s, d) == KeyFor(mapping, s', d') <==> s == s' && Alike(mapping, d, d')
  {
  }

  datatype Session = Session(addresses: set<IpAddr>, endpoints: set<SocketAddr>, lastUsed: Time, generation: nat)

  type Sessions = map<MappingKey, Session>

  datatype Config = Config(filtering: Behavior, maxSessions: nat, idleTimeout: nat)

  datatype Table = Table(sessions: Sessions, generation: nat)

  const Empty := Table(map[], 0)

  // ---------------------------------------------------------------- what each call does

  predicate IsAlive(c: Config, s: Session, now: Time) {
    Max(now - s.lastUsed, 0) < c.idleTimeout
  }

  function Alive(c: Config, sessions: Sessions, now: Time): Sessions {
    map key | key in sessions && IsAlive(c, sessions[key], now) :: sessions[key]
  }

  /** The mapping with the lowest generation: the one `evict_lru` removes. */
  predicate IsOldest(sessions: Sessions, key: MappingKey) {
    key in sessions && forall k :: k in sessions ==> sessions[key].generation <= sessions[k].generation
  }

  lemma OldestExists(sessions: Sessions)
    requires sessions.Keys != {}
    ensures exists key :: IsOldest(sessions, key)
  {
    var key := LeastRanked(sessions.Keys, k => if k in sessions then sessions[k].generation else 0);
    assert IsOldest(sessions, key);
  }

  ghost function Oldest(sessions: Sessions): (key: MappingKey)
    requires sessions.Keys != {}
    ensures IsOldest(sessions, key)
  {
    OldestExists(sessions);
    var key :| IsOldest(sessions, key);
    key
  }

  /** `reclaim_if_full`: drop idle mappings, or if there are none the oldest mapping. */
  ghost function Reclaimed(c: Config, sessions: Sessions, now: Time): Sessions {
    if |sessions| < c.maxSessions then sessions
    else
      var alive := Alive(c, sessions, now);
      if |alive| == |sessions| && alive.Keys != {} then alive - {Oldest(alive)} else alive
  }

  function Used(s: Session, now: Time, generation: nat): Session {
    s.(lastUsed := now, generation := generation)
  }

  function Allowing(s: Session, destination: SocketAddr): Session {
    s.(addresses := s.addresses + {destination.ip}, endpoints := s.endpoints + {destination})
  }

  /** `touch_and_sender`, without the sender handle. */
  ghost function Touch(c: Config, t: Table, key: MappingKey, destination: SocketAddr, now: Time): Table {
    var sessions := if key in t.sessions then t.sessions else Reclaimed(c, t.sessions, now);
    var s := if key in sessions then sessions[key] else Session({}, {}, now, t.generation + 1);
    Table(sessions[key := Allowing(Used(s, now, t.generation + 1), destination)], t.generation + 1)
  }

  predicate Permits(c: Config, s: Session, remote: SocketAddr) {
    match c.filtering
    case EndpointIndependent => true
    case AddressDependent => remote.ip in s.addresses
    case AddressAndPortDependent => remote in s.endpoints
  }

  predicate Allowed(c: Config, t: Table, key: MappingKey, remote: SocketAddr, now: Time) {
    key in Alive(c, t.sessions, now) && Permits(c, t.sessions[key], remote)
  }

  /** `allow_response`: expire first; an allowed response counts as a use. */
  function Respond(c: Config, t: Table, key: MappingKey, remote: SocketAddr, now: Time): Table {
    var alive := Alive(c, t.sessions, now);
    if Allowed(c, t, key, remote, now)
    then Table(alive[key := Used(alive[key], now, t.generation + 1)], t.generation + 1)
    else Table(alive, t.generation)
  }

  // ---------------------------------------------------------------- whole runs

  datatype Event =
    | Sent(key: MappingKey, destination: SocketAddr, now: Time)
    | Received(key: MappingKey, remote: SocketAddr, now: Time)
    | Expired(now: Time)

  ghost function Apply(c: Config, t: Table, e: Event): Table {
    match e
    case Sent(key, destination, now) => Touch(c, t, key, destination, now)
    case Received(key, remote, now) => Respond(c, t, key, remote, now)
    case Expired(now) => Table(Alive(c, t.sessions, now), t.generation)
  }

  ghost function Run(c: Config, events: seq<Event>): Table
    decreases |events|
  {
    if events == [] then Empty else Apply(c, Run(c, events[..|events| - 1]), events[|events| - 1])
  }

  lemma RunStep(c: Config, events: seq<Event>, e: Event)
    ensures Run(c, events + [e]) == Apply(c, Run(c, events), e)
  {
    assert (events + [e])[..|events|] == events;
  }

  /** The event uses the mapping: a send through it, or a response it lets in. */
  ghost predicate Uses(c: Config, before: Table, e: Event, key: MappingKey) {
    || (e.Sent? && e.key == key)
    || (e.Received? && e.key == key && Allowed(c, before, key, e.remote, e.now))
  }

  /** The position of the last event that used the mapping, or -1. */
  ghost function LastUse(c: Config, events: seq<Event>, key: MappingKey): (i: int)
    ensures -1 <= i < |events|
    decreases |events|
  {
    if events == [] then -1
    else
      var front := events[..|events| - 1];
      if Uses(c, Run(c, front), events[|events| - 1], key) then |front| else LastUse(c, front, key)
  }

  /** Where the mapping was sent to since it was created. */
  ghost function SentTo(c: Config, events: seq<Event>, key: MappingKey): set<SocketAddr>
    decreases |events|
  {
    if key !in Run(c, events).sessions || events == [] then {}
    else
      var front, e := events[..|events| - 1], events[|events| - 1];
      SentTo(c, front, key) + (if e.Sent? && e.key == key then {e.destination} else {})
  }

  /** What a run keeps for one mapping. */
  ghost predicate MappingOk(c: Config, events: seq<Event>, key: MappingKey) {
    var t := Run(c, events);
    key in t.sessions ==>
      && t.sessions[key].generation <= t.generation
      && 0 <= LastUse(c, events, key) && t.sessions[key].lastUsed == events[LastUse(c, events, key)].now
      && t.sessions[key].endpoints == SentTo(c, events, key)
      && t.sessions[key].addresses == (set d | d in SentTo(c, events, key) :: d.ip)
  }

  /** Generations order mappings by their last use. */
  ghost predicate PairOk(c: Config, events: seq<Event>, a: MappingKey, b: MappingKey) {
    var t := Run(c, events);
    a in t.sessions && b in t.sessions && a != b ==>
      && t.sessions[a].generation != t.sessions[b].generation
      && (t.sessions[a].generation < t.sessions[b].generation <==> LastUse(c, events, a) < LastUse(c, events, b))
  }

  /** What one event does to one mapping that survives it. */
  ghost predicate Moved(c: Config, t: Table, e: Event, key: MappingKey) {
    var t' := Apply(c, t, e);
    && (t'.generation == t.generation || t'.generation == t.generation + 1)
    && (key in t'.sessions && key !in t.sessions ==>
          && e.Sent? && e.key == key
          && t'.sessions[key] == Session({e.destination.ip}, {e.destination}, e.now, t.generation + 1))
    && (key in t'.sessions && key in t.sessions ==>
          t'.sessions[key] ==
            if e.Sent? && e.key == key then Allowing(Used(t.sessions[key], e.now, t.generation + 1), e.destination)
            else if Uses(c, t, e, key) then Used(t.sessions[key], e.now, t.generation + 1)
            else t.sessions[key])
    && (key in t'.sessions && Uses(c, t, e, key) ==> t'.generation == t.generation + 1)
  }

  lemma ReclaimedKeeps(c: Config, sessions: Sessions, now: Time, key: MappingKey)
    ensures key in Reclaimed(c, sessions, now) ==> key in sessions && Reclaimed(c, sessions, now)[key] == sessions[key]
  {
  }

  lemma SentMoves(c: Config, t: Table, e: Event, key: MappingKey)
    requires e.Sent?
    ensures Moved(c, t, e, key)
  {
    hide Reclaimed, Alive, Allowed;
    if e.key !in t.sessions {
      ReclaimedKeeps(c, t.sessions, e.now, key);
      ReclaimedKeeps(c, t.sessions, e.now, e.key);
    }
  }

  lemma ReceivedMoves(c: Config, t: Table, e: Event, key: MappingKey)
    requires !e.Sent?
    ensures Moved(c, t, e, key)
  {
    hide IsAlive, Permits;
  }

  lemma EventMoves(c: Config, t: Table, e: Event, key: MappingKey)
    ensures Moved(c, t, e, key)
  {
    hide Moved;
    if e.Sent? { SentMoves(c, t, e, key); } else { ReceivedMoves(c, t, e, key); }
  }

  lemma {:induction false} RunMappings(c: Config, events: seq<Event>, key: MappingKey)
    ensures MappingOk(c, events, key)
    decreases |events|
  {
    hide Apply, Allowed;
    if events != [] {
      var front, e := events[..|events| - 1], events[|events| - 1];
      RunMappings(c, front, key);
      EventMoves(c, Run(c, front), e, key);
      var t, before, after := Run(c, events), SentTo(c, front, key), SentTo(c, events, key);
      if key in t.sessions {
        if e.Sent? && e.key == key {
          assert after == before + {e.destination};
          assert (set d | d in after :: d.ip) == (set d | d in before :: d.ip) + {e.destination.ip};
        } else {
          assert after == before;
        }
      }
    }
  }

  lemma {:induction false} RunOrder(c: Config, events: seq<Event>, a: MappingKey, b: MappingKey)
    ensures PairOk(c, events, a, b)
    decreases |events|
  {
    hide Apply, Allowed, SentTo;
    if events != [] {
      var front, e := events[..|events| - 1], events[|events| - 1];
      RunOrder(c, front, a, b);
      RunMappings(c, front, a);
      RunMappings(c, front, b);
      EventMoves(c, Run(c, front), e, a);
      EventMoves(c, Run(c, front), e, b);
    }
  }

  /** At `now` the last use of the mapping is at least the timeout ago. */
  ghost predicate Idle(c: Config, events: seq<Event>, key: MappingKey, now: Time) {
    var last := LastUse(c, events, key);
    last >= 0 ==> c.idleTimeout == 0 || now - events[last].now >= c.idleTimeout
  }

  /** A mapping is taken for alive exactly when it is not idle by what happened. */
  lemma AliveIsNotIdle(c: Config, events: seq<Event>, key: MappingKey, now: Time)
    requires key in Run(c, events).sessions
    ensures IsAlive(c, Run(c, events).sessions[key], now) <==> !Idle(c, events, key, now)
  {
    hide Run, LastUse, SentTo;
    RunMappings(c, events, key);
  }

  // ---------------------------------------------------------------- the table stays bounded

  lemma AliveSize(c: Config, sessions: Sessions, now: Time)
    ensures |Alive(c, sessions, now)| <= |sessions|
    ensures |Alive(c, sessions, now)| == |sessions| <==> Alive(c, sessions, now) == sessions
  {
    var alive := Alive(c, sessions, now);
    SubsetSize(alive.Keys, sessions.Keys);
    assert |alive| == |alive.Keys| && |sessions| == |sessions.Keys|;
    if |alive| == |sessions| {
      assert alive.Keys == sessions.Keys;
    }
  }

  /** Reclaiming leaves room for one more mapping. */
  lemma ReclaimedSize(c: Config, sessions: Sessions, now: Time)
    requires |sessions| <= Max(c.maxSessions, 1)
    ensures |Reclaimed(c, sessions, now)| + 1 <= Max(c.maxSessions, 1)
  {
    hide Alive;
    AliveSize(c, sessions, now);
    var alive := Alive(c, sessions, now);
    if alive.Keys != {} {
      var rest := alive - {Oldest(alive)};
      assert rest.Keys == alive.Keys - {Oldest(alive)};
      assert |rest| == |rest.Keys| && |alive| == |alive.Keys|;
    } else {
      assert |alive| == |alive.Keys| == 0;
    }
  }

  lemma TouchSize(c: Config, t: Table, key: MappingKey, destination: SocketAddr, now: Time)
    requires |t.sessions| <= Max(c.maxSessions, 1)
    ensures |Touch(c, t, key, destination, now).sessions| <= Max(c.maxSessions, 1)
  {
    hide Reclaimed;
    var kept, after := t.sessions, Touch(c, t, key, destination, now).sessions;
    if key !in t.sessions {
      ReclaimedSize(c, t.sessions, now);
      kept := Reclaimed(c, t.sessions, now);
    }
    MapSizes(kept, key, after[key]);
    assert after == kept[key := after[key]];
  }

  /** The table never holds more than `max_sessions` mappings (one when that is zero). */
  lemma {:induction false} RunBounded(c: Config, events: seq<Event>)
    ensures |Run(c, events).sessions| <= Max(c.maxSessions, 1)
    decreases |events|
  {
    hide Touch, Alive, Allowed;
    if events != [] {
      var t, e := Run(c, events[..|events| - 1]), events[|events| - 1];
      RunBounded(c, events[..|events| - 1]);
      AliveSize(c, t.sessions, e.now);
      if e.Sent? {
        TouchSize(c, t, e.key, e.destination, e.now);
      } else if e.Received? {
        var alive := Alive(c, t.sessions, e.now);
        if e.key in alive {
          MapSizes(alive, e.key, Used(alive[e.key], e.now, t.generation + 1));
        }
        AllowedIsAlive(c, t, e.key, e.remote, e.now);
      }
    }
  }

  lemma AllowedIsAlive(c: Config, t: Table, key: MappingKey, remote: SocketAddr, now: Time)
    ensures Allowed(c, t, key, remote, now) ==> key in Alive(c, t.sessions, now)
  {
  }

  // ---------------------------------------------------------------- which mapping goes

  /** Every other mapping was used after this one. */
  ghost predicate LeastRecentlyUsed(c: Config, events: seq<Event>, key: MappingKey) {
    forall k :: k in Run(c, events).sessions && k != key ==> LastUse(c, events, key) < LastUse(c, events, k)
  }

  lemma OldestIsLeastRecentlyUsed(c: Config, events: seq<Event>, key: MappingKey)
    requires key in Run(c, events).sessions
    ensures IsOldest(Run(c, events).sessions, key) <==> LeastRecentlyUsed(c, events, key)
  {
    hide Run, LastUse;
    forall k | k in Run(c, events).sessions && k != key
      ensures Run(c, events).sessions[key].generation < Run(c, events).sessions[k].generation <==>
              LastUse(c, events, key) < LastUse(c, events, k)
      ensures Run(c, events).sessions[key].generation != Run(c, events).sessions[k].generation
    {
      RunOrder(c, events, key, k);
    }
  }

  lemma OldestIsUnique(c: Config, events: seq<Event>, a: MappingKey, b: MappingKey)
    requires IsOldest(Run(c, events).sessions, a) && IsOldest(Run(c, events).sessions, b)
    ensures a == b
  {
    hide Run, LastUse;
    RunOrder(c, events, a, b);
  }

  lemma ReclaimedWhenFull(c: Config, sessions: Sessions, now: Time, key: MappingKey)
    requires key in sessions && |sessions| >= c.maxSessions
    ensures key in Reclaimed(c, sessions, now) <==>
            if Alive(c, sessions, now) == sessions then key != Oldest(sessions) else IsAlive(c, sessions[key], now)
  {
    hide IsAlive, IsOldest;
    AliveSize(c, sessions, now);
  }

  /**
   A mapping survives a send through a new mapping exactly when the table has room, or some
   mapping is idle and this one is not, or none is idle and another was used longer ago.
   */
  lemma SurvivesNewMapping(c: Config, events: seq<Event>, e: Event, key: MappingKey)
    requires key in Run(c, events).sessions
    requires e.Sent? && e.key !in Run(c, events).sessions
    ensures var before := Run(c, events).sessions;
            key in Run(c, events + [e]).sessions <==>
              || |before| < c.maxSessions
              || (if forall k :: k in before ==> !Idle(c, events, k, e.now)
                  then !LeastRecentlyUsed(c, events, key)
                  else !Idle(c, events, key, e.now))
  {
    hide LastUse, LeastRecentlyUsed, IsAlive, Idle;
    var before := Run(c, events).sessions;
    RunStep(c, events, e);
    assert key in Run(c, events + [e]).sessions <==> key in Reclaimed(c, before, e.now);
    forall k | k in before ensures IsAlive(c, before[k], e.now) <==> !Idle(c, events, k, e.now) {
      AliveIsNotIdle(c, events, k, e.now);
    }
    if |before| >= c.maxSessions {
      ReclaimedWhenFull(c, before, e.now, key);
      AllAlive(c, before, e.now);
      OldestIsLeastRecentlyUsed(c, events, key);
      if IsOldest(before, key) { OldestIsUnique(c, events, key, Oldest(before)); }
    }
  }

  /**
   A send keeps or opens its own mapping, and through an open one drops none. A response, allowed or
   not, and an expiry drop exactly the idle mappings.
   */
  lemma SurvivesOthers(c: Config, events: seq<Event>, e: Event, key: MappingKey)
    ensures
      var before, after := Run(c, events).sessions, Run(c, events + [e]).sessions;
      && (e.Sent? ==> e.key in after)
      && (e.Sent? && e.key in before ==> (key in after <==> key in before))
      && (!e.Sent? ==> (key in after <==> key in before && !Idle(c, events, key, e.now)))
  {
    hide LastUse, Idle, IsAlive, Reclaimed;
    RunStep(c, events, e);
    if key in Run(c, events).sessions { AliveIsNotIdle(c, events, key, e.now); }
  }

  lemma AllAlive(c: Config, sessions: Sessions, now: Time)
    ensures Alive(c, sessions, now) == sessions <==> forall k :: k in sessions ==> IsAlive(c, sessions[k], now)
  {
    hide IsAlive;
    if forall k :: k in sessions ==> IsAlive(c, sessions[k], now) {
      assert Alive(c, sessions, now) == sessions;
    } else {
      var k :| k in sessions && !IsAlive(c, sessions[k], now);
      assert k !in Alive(c, sessions, now);
    }
  }

  // ---------------------------------------------------------------- which responses come in

  /** Event `i` sent to `d` through the mapping, which has been in the table ever since. */
  ghost predicate SentAndHeld(c: Config, events: seq<Event>, key: MappingKey, d: SocketAddr, i: nat) {
    && i < |events|
    && events[i].Sent? && events[i].key == key && events[i].destination == d
    && forall j :: i < j <= |events| ==> key in Run(c, events[..j]).sessions
  }

  lemma HeldBefore(c: Config, events: seq<Event>, key: MappingKey, d: SocketAddr, i: nat)
    requires events != [] && i < |events| - 1
    ensures SentAndHeld(c, events, key, d, i) <==>
            SentAndHeld(c, events[..|events| - 1], key, d, i) && key in Run(c, events).sessions
  {
    hide Run;
    var front := events[..|events| - 1];
    assert events[..|events|] == events;
    assert forall j :: 0 <= j <= |front| ==> front[..j] == events[..j];
    if SentAndHeld(c, front, key, d, i) && key in Run(c, events).sessions {
      forall j | i < j <= |events| ensures key in Run(c, events[..j]).sessions {
        if j < |events| { assert key in Run(c, front[..j]).sessions; }
      }
    }
    if SentAndHeld(c, events, key, d, i) {
      forall j | i < j <= |front| ensures key in Run(c, front[..j]).sessions {
        assert key in Run(c, events[..j]).sessions;
      }
      assert key in Run(c, events[..|events|]).sessions;
    }
  }

  lemma HeldLast(c: Config, events: seq<Event>, key: MappingKey, d: SocketAddr)
    requires events != []
    ensures SentAndHeld(c, events, key, d, |events| - 1) <==>
            var e := events[|events| - 1];
            e.Sent? && e.key == key && e.destination == d && key in Run(c, events).sessions
  {
    hide Run;
    assert events[..|events|] == events;
    if SentAndHeld(c, events, key, d, |events| - 1) {
      assert key in Run(c, events[..|events|]).sessions;
    }
  }

  lemma {:induction false} SentToIff(c: Config, events: seq<Event>, key: MappingKey, d: SocketAddr)
    ensures d in SentTo(c, events, key) <==> exists i: nat :: SentAndHeld(c, events, key, d, i)
    decreases |events|
  {
    hide Run, SentAndHeld;
    if events == [] {
      assert !exists i: nat :: SentAndHeld(c, events, key, d, i) by { NothingSent(c, key, d); }
    } else {
      var front := events[..|events| - 1];
      SentToIff(c, front, key, d);
      HeldLast(c, events, key, d);
      forall i: nat | i < |events| - 1
        ensures SentAndHeld(c, events, key, d, i) <==>
                SentAndHeld(c, front, key, d, i) && key in Run(c, events).sessions
      {
        HeldBefore(c, events, key, d, i);
      }
      HeldInside(c, events, key, d);
      HeldInside(c, front, key, d);
    }
  }

  lemma NothingSent(c: Config, key: MappingKey, d: SocketAddr)
    ensures forall i: nat :: !SentAndHeld(c, [], key, d, i)
  {
  }

  lemma HeldInside(c: Config, events: seq<Event>, key: MappingKey, d: SocketAddr)
    ensures forall i: nat :: SentAndHeld(c, events, key, d, i) ==> i < |events|
  {
  }

  /**
   A response is let in exactly when its mapping is in the table and not idle and, unless filtering is endpoint
   independent, the remote address or endpoint was sent to through that mapping since the mapping
   last entered the table.
   */
  lemma KeyAllowedIff(c: Config, events: seq<Event>, key: MappingKey, remote: SocketAddr, now: Time)
    ensures var t := Run(c, events);
            Allowed(c, t, key, remote, now) <==>
              && key in t.sessions && !Idle(c, events, key, now)
              && (c.filtering.EndpointIndependent? ||
                  exists d, i: nat :: Alike(c.filtering, d, remote) && SentAndHeld(c, events, key, d, i))
  {
    hide Run, SentAndHeld, IsAlive, SentTo, Idle, LastUse;
    RunMappings(c, events, key);
    if key in Run(c, events).sessions { AliveIsNotIdle(c, events, key, now); }
    forall d ensures d in SentTo(c, events, key) <==> exists i: nat :: SentAndHeld(c, events, key, d, i) {
      SentToIff(c, events, key, d);
    }
    var t := Run(c, events);
    if key in t.sessions && c.filtering.AddressDependent? && remote.ip in t.sessions[key].addresses {
      var d :| d in SentTo(c, events, key) && d.ip == remote.ip;
      assert Alike(c.filtering, d, remote);
    }
    if c.filtering.AddressAndPortDependent? { assert Alike(c.filtering, remote, remote); }
  }

  // ---------------------------------------------------------------- datagrams

  /** What the relay loops do with the table: a flow keeps the mapping of the packet that opened it. */
  datatype Datagram =
    | Outgoing(source: SocketAddr, destination: SocketAddr, now: Time)
    | Response(source: SocketAddr, opener: SocketAddr, remote: SocketAddr, now: Time)

  function EventOf(mapping: Behavior, d: Datagram): Event {
    match d
    case Outgoing(source, destination, now) => Sent(KeyFor(mapping, source, destination), destination, now)
    case Response(source, opener, remote, now) => Received(KeyFor(mapping, source, opener), remote, now)
  }

  function Events(mapping: Behavior, traffic: seq<Datagram>): seq<Event> {
    seq(|traffic|, i requires 0 <= i < |traffic| => EventOf(mapping, traffic[i]))
  }

  ghost function Relayed(c: Config, mapping: Behavior, traffic: seq<Datagram>): Table {
    Run(c, Events(mapping, traffic))
  }

  /** Datagram `i` went from the source to `d`, and the flow's mapping has been in the table ever since. */
  ghost predicate Held(
    c: Config, mapping: Behavior, traffic: seq<Datagram>, source: SocketAddr, opener: SocketAddr, d: SocketAddr, i: nat)
  {
    && i < |traffic|
    && traffic[i].Outgoing? && traffic[i].source == source && traffic[i].destination == d
    && forall j :: i < j <= |traffic| ==> KeyFor(mapping, source, opener) in Relayed(c, mapping, traffic[..j]).sessions
  }

  lemma EventsPrefix(mapping: Behavior, traffic: seq<Datagram>, j: nat)
    requires j <= |traffic|
    ensures Events(mapping, traffic)[..j] == Events(mapping, traffic[..j])
  {
  }

  lemma HeldIff(
    c: Config, mapping: Behavior, traffic: seq<Datagram>, source: SocketAddr, opener: SocketAddr, d: SocketAddr, i: nat)
    ensures SentAndHeld(c, Events(mapping, traffic), KeyFor(mapping, source, opener), d, i) <==>
            Held(c, mapping, traffic, source, opener, d, i) && Alike(mapping, d, opener)
  {
    hide Run, Alike;
    forall j: nat | j <= |traffic|
      ensures Events(mapping, traffic)[..j] == Events(mapping, traffic[..j])
    {
      EventsPrefix(mapping, traffic, j);
    }
    if i < |traffic| && traffic[i].Outgoing? {
      SharedMapping(mapping, traffic[i].source, traffic[i].destination, source, opener);
    }
    var key, events := KeyFor(mapping, source, opener), Events(mapping, traffic);
    assert (forall j :: i < j <= |events| ==> key in Run(c, events[..j]).sessions) <==>
           (forall j :: i < j <= |traffic| ==> key in Relayed(c, mapping, traffic[..j]).sessions);
  }

  /** The flow's mapping is in the table and not idle. */
  ghost predicate Live(c: Config, mapping: Behavior, traffic: seq<Datagram>, key: MappingKey, now: Time) {
    key in Relayed(c, mapping, traffic).sessions && !Idle(c, Events(mapping, traffic), key, now)
  }

  /**
   A response reaches the source through a flow exactly when the flow's mapping is live and, unless
   filtering is endpoint independent, the source itself sent, since that mapping last entered the
   table, to a destination that shares the mapping and is alike to the remote for filtering.
   */
  lemma ResponseAllowedIff(
    c: Config, mapping: Behavior, traffic: seq<Datagram>, source: SocketAddr, opener: SocketAddr,
    remote: SocketAddr, now: Time)
    ensures
      var t, key := Relayed(c, mapping, traffic), KeyFor(mapping, source, opener);
      Allowed(c, t, key, remote, now) <==>
        && Live(c, mapping, traffic, key, now)
        && (c.filtering.EndpointIndependent? ||
            exists d, i: nat ::
              && Alike(c.filtering, d, remote) && Alike(mapping, d, opener)
              && Held(c, mapping, traffic, source, opener, d, i))
  {
    hide Run, Alike, SentAndHeld, Held, Allowed, Idle, KeyFor;
    KeyAllowedIff(c, Events(mapping, traffic), KeyFor(mapping, source, opener), remote, now);
    forall d, i: nat
      ensures SentAndHeld(c, Events(mapping, traffic), KeyFor(mapping, source, opener), d, i) <==>
              Held(c, mapping, traffic, source, opener, d, i) && Alike(mapping, d, opener)
    {
      HeldIff(c, mapping, traffic, source, opener, d, i);
    }
  }

  function Strictness(b: Behavior): nat {
    match b
    case EndpointIndependent => 0
    case AddressDependent => 1
    case AddressAndPortDependent => 2
  }

  /** A mapping in the table has been sent to. */
  lemma {:induction false} MappingWasSent(c: Config, events: seq<Event>, key: MappingKey)
    requires key in Run(c, events).sessions
    ensures SentTo(c, events, key) != {}
    decreases |events|
  {
    hide Apply, Allowed;
    var front, e := events[..|events| - 1], events[|events| - 1];
    EventMoves(c, Run(c, front), e, key);
    if key in Run(c, front).sessions {
      MappingWasSent(c, front, key);
    } else {
      assert e.destination in SentTo(c, events, key);
    }
  }

  /**
   When mapping is at least as strict as filtering, the past does not matter: a live mapping admits
   exactly the remotes that are alike to the destination that opened the flow. So with address and
   port dependent behavior a mapping admits its own destination only.
   */
  lemma StrictMappingDecides(
    c: Config, mapping: Behavior, traffic: seq<Datagram>, source: SocketAddr, opener: SocketAddr,
    remote: SocketAddr, now: Time)
    requires Strictness(c.filtering) <= Strictness(mapping)
    ensures
      var t, key := Relayed(c, mapping, traffic), KeyFor(mapping, source, opener);
      Allowed(c, t, key, remote, now) <==> Live(c, mapping, traffic, key, now) && Alike(c.filtering, opener, remote)
  {
    hide Run, SentAndHeld, Held, Allowed, Idle, KeyFor, SentTo;
    ResponseAllowedIff(c, mapping, traffic, source, opener, remote, now);
    var events, key := Events(mapping, traffic), KeyFor(mapping, source, opener);
    if key in Relayed(c, mapping, traffic).sessions {
      MappingWasSent(c, events, key);
      var d :| d in SentTo(c, events, key);
      SentToIff(c, events, key, d);
      var i: nat :| SentAndHeld(c, events, key, d, i);
      HeldIff(c, mapping, traffic, source, opener, d, i);
    }
  }

  // ---------------------------------------------------------------- the table object

  class UdpNatTable {
    const config: Config
    var generation: nat
    var sessions: Sessions
    ghost var events: seq<Event>

    /** The fields are what the calls so far make of an empty table. */
    ghost predicate Valid()
      reads this
    {
      Table(sessions, generation) == Run(config, events)
    }

    constructor (config: Config)
      ensures Valid() && this.config == config && events == []
    {
      this.config := config;
      generation := 0;
      sessions := map[];
      events := [];
    }

    method EvictLru()
      requires forall a, b :: IsOldest(sessions, a) && IsOldest(sessions, b) ==> a == b
      modifies this`sessions
      ensures sessions == if old(sessions).Keys == {} then old(sessions) else old(sessions - {Oldest(sessions)})
    {
      var victim: Option<MappingKey> := None;
      var left := sessions.Keys;
      while left != {}
        invariant left <= sessions.Keys
        invariant victim == None <==> left == sessions.Keys
        invariant victim.Some? ==> victim.value in sessions
        invariant victim.Some? ==>
          forall k :: k in sessions && k !in left ==> sessions[victim.value].generation <= sessions[k].generation
        invariant sessions == old(sessions)
        decreases |left|
      {
        var key :| key in left;
        if victim == None || sessions[key].generation < sessions[victim.value].generation {
          victim := Some(key);
        }
        left := left - {key};
      }
      if victim.Some? {
        assert IsOldest(sessions, victim.value);
        assert victim.value == Oldest(sessions);
        sessions := sessions - {victim.value};
      }
    }

    method ReclaimIfFull(now: Time)
      requires Valid()
      modifies this`sessions
      ensures sessions == Reclaimed(config, old(sessions), now)
    {
      hide Run, IsAlive;
      if |sessions| < config.maxSessions {
        return;
      }
      var before := sessions;
      sessions := Alive(config, sessions, now);
      AliveSize(config, before, now);
      if |sessions| == |before| && |sessions| >= config.maxSessions {
        forall a, b | IsOldest(sessions, a) && IsOldest(sessions, b) ensures a == b {
          OldestIsUnique(config, events, a, b);
        }
        EvictLru();
      }
    }

    method TouchAndSender(key: MappingKey, destination: SocketAddr, now: Time)
      requires Valid()
      modifies this
      ensures Valid()
      ensures events == old(events) + [Sent(key, destination, now)]
      ensures key in sessions && destination in sessions[key].endpoints
      ensures |sessions| <= Max(config.maxSessions, 1)
    {
      hide Reclaimed, Alive, Respond, Run;
      ghost var before := Table(sessions, generation);
      if key !in sessions {
        ReclaimIfFull(now);
        ReclaimedKeeps(config, before.sessions, now, key);
      }
      generation := generation + 1;
      var s := if key in sessions then sessions[key] else Session({}, {}, now, generation);
      s := s.(lastUsed := now);
      s := s.(generation := generation);
      s := s.(addresses := s.addresses + {destination.ip});
      s := s.(endpoints := s.endpoints + {destination});
      sessions := sessions[key := s];
      assert Table(sessions, generation) == Touch(config, before, key, destination, now);
      RunStep(config, events, Sent(key, destination, now));
      events := events + [Sent(key, destination, now)];
      RunBounded(config, events);
    }

    method Expire(now: Time)
      requires Valid()
      modifies this
      ensures Valid()
      ensures events == old(events) + [Expired(now)]
      ensures forall key :: key in sessions <==> key in old(sessions) && IsAlive(config, old(sessions[key]), now)
    {
      hide Run, IsAlive;
      sessions := map key | key in sessions && IsAlive(config, sessions[key], now) :: sessions[key];
      RunStep(config, events, Expired(now));
      events := events + [Expired(now)];
    }

    method AllowResponse(key: MappingKey, remote: SocketAddr, now: Time) returns (allowed: bool)
      requires Valid()
      modifies this
      ensures Valid()
      ensures events == old(events) + [Received(key, remote, now)]
      ensures allowed == Allowed(config, old(Run(config, events)), key, remote, now)
    {
      hide Run, IsAlive;
      ghost var history := events;
      RunStep(config, history, Expired(now));
      RunStep(config, history, Received(key, remote, now));
      Expire(now);
      events := history + [Received(key, remote, now)];
      if key !in sessions {
        return false;
      }
      var s := sessions[key];
      match config.filtering {
        case EndpointIndependent => allowed := true;
        case AddressDependent => allowed := remote.ip in s.addresses;
        case AddressAndPortDependent => allowed := remote in s.endpoints;
      }
      if allowed {
        generation := generation + 1;
        s := s.(lastUsed := now);
        s := s.(generation := generation);
        sessions := sessions[key := s];
      }
    }
  }
}
