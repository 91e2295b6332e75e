/**
 The route evaluation loop (src/proxy/route.rs): rule actions, sniffing and the two ways
 addresses become known, over one fixed snapshot of the rules.

 Each rule is acted on at most once, so the outcome of a sniff or of a resolution is
 modelled as an arbitrary function of the rule index that caused it.
 */
module RouteEvaluation {
  import opened Basics
  import opened RouteRules
  import opened RuleScan
  import opened LazyRouting
  import opened RouteMetadata

  datatype Destination = Ip(address: IpAddr, port: int) | Domain(name: string, port: int)

  datatype SniffResult = SniffResult(protocol: string, domain: Option<string>, client: Option<string>)

  datatype Env = Env(
    rules: seq<Rule>, finalOutbound: string, connection: Connection, metadata: Metadata,
    hasResolver: bool,
    needAnswer: nat -> seq<IpAddr>,
    actionAnswer: nat -> Result<seq<IpAddr>>,
    sniff: nat -> Option<SniffResult>)

  /** A lookup that succeeds returns at least one address (src/dns/mod.rs:289-291). */
  ghost predicate ValidEnv(env: Env) {
    forall i: nat :: env.actionAnswer(i).Ok? ==> env.actionAnswer(i).value != []
  }

  datatype State = State(
    domain: Option<string>, destinationIp: Option<IpAddr>, destinationIps: seq<IpAddr>,
    cursor: nat, resolved: bool, protocol: Option<string>, client: Option<string>)
  {
    predicate NoAddress() { destinationIps == [] && destinationIp.None? }

    function Reported(): seq<IpAddr> { if resolved then destinationIps else [] }
  }

  datatype Outcome =
    | Decided(decision: RouteDecision, acted: seq<nat>, addresses: seq<IpAddr>)
    | Failed

  function Start(destination: Destination): State {
    match destination
    case Domain(name, _) => State(Some(name), None, [], 0, false, None, None)
    case Ip(address, _) => State(None, Some(address), [], 0, false, None, None)
  }

  function ContextOf(env: Env, s: State): Context {
    Context(s.domain, s.destinationIp, s.destinationIps,
            env.connection.(protocol := s.protocol, client := s.client), env.metadata)
  }

  /** The first address of a family. */
  ghost predicate IsFirst(addresses: seq<IpAddr>, v6: bool, ip: IpAddr) {
    exists k :: 0 <= k < |addresses| && addresses[k] == ip && ip.V6? == v6 && NoneOf(addresses[..k], v6)
  }

  ghost predicate NoneOf(addresses: seq<IpAddr>, v6: bool) {
    forall ip :: ip in addresses ==> ip.V6? != v6
  }

  /**
   `select_address`: the first address of the family the strategy asks for. The two "only" strategies
   select none if there is none, all others then select the first address.
   */
  function SelectAddress(addresses: seq<IpAddr>, strategy: string): (r: Option<IpAddr>)
    ensures r.Some? ==> r.value in addresses
    ensures strategy in ["ipv4_only", "prefer_ipv4"] && !NoneOf(addresses, false) ==>
      r.Some? && IsFirst(addresses, false, r.value)
    ensures strategy in ["ipv6_only", "prefer_ipv6"] && !NoneOf(addresses, true) ==>
      r.Some? && IsFirst(addresses, true, r.value)
    ensures strategy == "ipv4_only" && NoneOf(addresses, false) ==> r.None?
    ensures strategy == "ipv6_only" && NoneOf(addresses, true) ==> r.None?
    ensures
      || strategy !in ["ipv4_only", "prefer_ipv4", "ipv6_only", "prefer_ipv6"]
      || (strategy == "prefer_ipv4" && NoneOf(addresses, false))
      || (strategy == "prefer_ipv6" && NoneOf(addresses, true))
      ==> r == if addresses == [] then None else Some(addresses[0])
  {
    var v4 := FindFamily(addresses, false);
    var v6 := FindFamily(addresses, true);
    var first := if addresses == [] then None else Some(addresses[0]);
    if strategy == "ipv4_only" then v4
    else if strategy == "ipv6_only" then v6
    else if strategy == "prefer_ipv4" then (if v4.Some? then v4 else first)
    else if strategy == "prefer_ipv6" then (if v6.Some? then v6 else first)
    else first
  }

  function FindFamily(addresses: seq<IpAddr>, v6: bool): (r: Option<IpAddr>)
    ensures r.Some? ==> r.value in addresses && IsFirst(addresses, v6, r.value)
    ensures r.None? ==> NoneOf(addresses, v6)
  {
    if addresses == [] then None
    else if addresses[0].V6? == v6 then
      assert NoneOf(addresses[..0], v6);
      Some(addresses[0])
    else
      var r := FindFamily(addresses[1..], v6);
      (if r.Some? then FirstBehind(addresses, v6, r.value); r else r)
  }

  lemma FirstBehind(addresses: seq<IpAddr>, v6: bool, ip: IpAddr)
    requires addresses != [] && addresses[0].V6? != v6 && IsFirst(addresses[1..], v6, ip)
    ensures IsFirst(addresses, v6, ip)
  {
    var k :| 0 <= k < |addresses| - 1 && addresses[1..][k] == ip && NoneOf(addresses[1..][..k], v6);
    assert addresses[..k + 1] == [addresses[0]] + addresses[1..][..k];
    assert addresses[k + 1] == ip;
  }

  /** `RouteState::need_resolve`: an address is known and the rule retried, or the rule is passed. */
  function AfterNeedResolve(env: Env, s: State, index: nat): (s': State)
    ensures s'.cursor == index + 1 || (s'.cursor == index && !s'.NoAddress())
  {
    if s.domain.None? || !env.hasResolver then s.(cursor := index + 1)
    else
      var answer := env.needAnswer(index);
      if answer == [] then s.(destinationIps := [], resolved := true, cursor := index + 1)
      else s.(destinationIps := answer, destinationIp := Some(answer[0]), resolved := true, cursor := index)
  }

  /** `RouteState::resolve_action`. */
  function AfterResolveAction(env: Env, s: State, index: nat, strategy: string): Result<State> {
    if s.domain.None? || !env.hasResolver then Ok(s)
    else
      match env.actionAnswer(index)
      case Err => Err
      case Ok(answer) =>
        Ok(s.(destinationIps := answer, destinationIp := SelectAddress(answer, strategy), resolved := true))
  }

  function AfterSniff(env: Env, s: State, index: nat): State {
    match env.sniff(index)
    case None => s
    case Some(r) => s.(protocol := Some(r.protocol), client := r.client,
                       domain := if r.domain.Some? then r.domain else s.domain)
  }

  /** One round of the loop either ends the evaluation or continues from a later state. */
  datatype Round = Done(outcome: Outcome) | Continue(state: State, acted: seq<nat>)

  /** No action takes away all addresses. */
  function ActOn(env: Env, s: State, acted: seq<nat>, i: nat): (r: Round)
    requires i < |env.rules|
    ensures r.Continue? ==> r.state.cursor == i + 1
    ensures r.Continue? && ValidEnv(env) && !s.NoAddress() ==> !r.state.NoAddress()
  {
    var next := s.(cursor := i + 1);
    match env.rules[i].action
    case Route(decision) => Done(Decided(decision, acted + [i], next.Reported()))
    case RouteOptions => Continue(next, acted + [i])
    case Resolve(strategy) =>
      (match AfterResolveAction(env, next, i, strategy)
       case Err => Done(Failed)
       case Ok(after) => Continue(after, acted + [i]))
    case Sniff => Continue(AfterSniff(env, next, i), acted + [i])
  }

  function RoundOf(env: Env, s: State, acted: seq<nat>): (r: Round)
    requires ValidEnv(env)
    ensures r.Continue? ==> Progress(env, s, r.state)
  {
    hide NextActionLazy, AfterNeedResolve, ActOn;
    match NextActionLazy(env.rules, ContextOf(env, s), s.cursor)
    case NoMatch => Done(Decided(Outbound(env.finalOutbound), acted, s.Reported()))
    case NeedResolve(i) => Continue(AfterNeedResolve(env, s, i), acted)
    case Action(i) => ActOn(env, s, acted, i)
  }

  /**
   Need-resolve either advances the cursor or makes the address set non-empty, and no round
   empties it again.
   */
  ghost predicate Progress(env: Env, s: State, s': State) {
    && s.cursor < |env.rules|
    && (s.cursor < s'.cursor <= |env.rules| ||
      (s.cursor <= s'.cursor < |env.rules| && s.NoAddress() && !s'.NoAddress()))
    && (!s.NoAddress() ==> !s'.NoAddress())
  }

  /** The whole evaluation. It ends on every snapshot, sniff outcome and resolver behaviour. */
  function Evaluate(env: Env, s: State, acted: seq<nat>): Outcome
    requires ValidEnv(env)
    decreases |env.rules| - s.cursor, if s.NoAddress() then 1 else 0
  {
    match RoundOf(env, s, acted)
    case Done(outcome) => outcome
    case Continue(s', acted') => Evaluate(env, s', acted')
  }

  /** `RouteState` with its in-place updates. */
  class RouteState {
    var domain: Option<string>
    var destinationIp: Option<IpAddr>
    var destinationIps: seq<IpAddr>
    var cursor: nat
    var resolved: bool
    var protocol: Option<string>
    var client: Option<string>

    function Value(): State
      reads this
    {
      State(domain, destinationIp, destinationIps, cursor, resolved, protocol, client)
    }

    constructor (destination: Destination)
      ensures Value() == Start(destination)
    {
      match destination {
        case Domain(name, _) => domain, destinationIp := Some(name), None;
        case Ip(address, _) => domain, destinationIp := None, Some(address);
      }
      destinationIps, cursor, resolved, protocol, client := [], 0, false, None, None;
    }

    method NeedResolve(env: Env, index: nat)
      modifies this
      ensures Value() == AfterNeedResolve(env, old(Value()), index)
    {
      if domain.None? || !env.hasResolver {
        cursor := index + 1;
        return;
      }
      destinationIps := env.needAnswer(index);
      resolved := true;
      if destinationIps == [] {
        cursor := index + 1;
      } else {
        destinationIp := Some(destinationIps[0]);
        cursor := index;
      }
    }

    method ResolveAction(env: Env, index: nat, strategy: string) returns (ok: bool)
      modifies this
      ensures
        match AfterResolveAction(env, old(Value()), index, strategy)
        case Ok(after) => ok && Value() == after
        case Err => !ok && Value() == old(Value())
    {
      if domain.None? || !env.hasResolver {
        return true;
      }
      var answer := env.actionAnswer(index);
      if answer.Err? {
        return false;
      }
      destinationIps := answer.value;
      destinationIp := SelectAddress(destinationIps, strategy);
      resolved := true;
      return true;
    }
  }

  /** The action arm of the loop body; a result ends the loop. */
  method Act(env: Env, state: RouteState, acted: seq<nat>, index: nat) returns (result: Option<Outcome>, log: seq<nat>)
    requires index < |env.rules|
    modifies state
    ensures
      match ActOn(env, old(state.Value()), acted, index)
      case Done(outcome) => result == Some(outcome)
      case Continue(s', acted') => result == None && state.Value() == s' && log == acted'
  {
    state.cursor := index + 1;
    log := acted + [index];
    match env.rules[index].action {
      case Route(decision) =>
        return Some(Decided(decision, log, state.Value().Reported())), log;
      case RouteOptions =>
      case Resolve(strategy) =>
        var ok := state.ResolveAction(env, index, strategy);
        if !ok {
          return Some(Failed), log;
        }
      case Sniff =>
        var sniffed := env.sniff(index);
        if sniffed.Some? {
          state.protocol, state.client := Some(sniffed.value.protocol), sniffed.value.client;
          if sniffed.value.domain.Some? {
            state.domain := sniffed.value.domain;
          }
        }
    }
    return None, log;
  }

  /** One turn of the loop; a result ends it. */
  method Turn(env: Env, state: RouteState, acted: seq<nat>) returns (result: Option<Outcome>, log: seq<nat>)
    requires ValidEnv(env)
    modifies state
    ensures
      match RoundOf(env, old(state.Value()), acted)
      case Done(outcome) => result == Some(outcome)
      case Continue(s', acted') => result == None && state.Value() == s' && log == acted'
  {
    var lookup := FindActionLazy(env.rules, ContextOf(env, state.Value()), state.cursor);
    match lookup {
      case NoMatch =>
        return Some(Decided(Outbound(env.finalOutbound), acted, state.Value().Reported())), acted;
      case NeedResolve(index) =>
        state.NeedResolve(env, index);
        return None, acted;
      case Action(index) =>
        result, log := Act(env, state, acted, index);
    }
  }

  /** `evaluate_tcp_route`, and its stream and UDP variants, which share this loop. */
  method EvaluateRoute(env: Env, destination: Destination) returns (outcome: Outcome)
    requires ValidEnv(env)
    ensures outcome == Evaluate(env, Start(destination), [])
  {
    var state := new RouteState(destination);
    var acted: seq<nat> := [];
    while true
      invariant Evaluate(env, Start(destination), []) == Evaluate(env, state.Value(), acted)
      decreases |env.rules| - state.cursor, if state.Value().NoAddress() then 1 else 0
    {
      ghost var before := state.Value();
      var result, log := Turn(env, state, acted);
      if result.Some? {
        return result.value;
      }
      assert Progress(env, before, state.Value());
      acted := log;
    }
  }

  // ---------------------------------------------------------------- lazy evaluation routes like eager evaluation

  /** The reference: every lookup is plain first match, on addresses resolved before the loop. */
  function EvaluateEager(env: Env, s: State, acted: seq<nat>): Outcome
    decreases |env.rules| - s.cursor
  {
    match NextAction(env.rules, ContextOf(env, s), s.cursor)
    case None => Decided(Outbound(env.finalOutbound), acted, s.Reported())
    case Some(i) =>
      match ActOn(env, s, acted, i)
      case Done(outcome) => outcome
      case Continue(s', acted') => EvaluateEager(env, s', acted')
  }

  /**
   The on-demand lookups of this evaluation all give `answer` (empty: they fail). Sniffing finds and
   resolve rules answer what they like.
   */
  ghost predicate Steady(env: Env, answer: seq<IpAddr>) {
    && (!env.hasResolver ==> answer == [])
    && (forall i: nat :: env.needAnswer(i) == answer)
  }

  function EagerState(s: State, answer: seq<IpAddr>): State {
    if s.NoAddress() && s.domain.Some? && answer != []
    then s.(destinationIps := answer, destinationIp := Some(answer[0]), resolved := true)
    else s
  }

  /** Same decision and same rules acted on, in the same order. */
  ghost predicate SameRouting(a: Outcome, b: Outcome) {
    match (a, b)
    case (Decided(d, acted, _), Decided(d', acted', _)) => d == d' && acted == acted'
    case (Failed, Failed) => true
    case _ => false
  }

  ghost predicate Known(s: State, answer: seq<IpAddr>) {
    answer != [] && s.destinationIps == answer && (s.destinationIp.Some? ==> s.destinationIp.value in answer)
  }

  /** The lazy state either knows what the eager one knows, or still knows nothing. */
  ghost predicate Related(s: State, e: State, answer: seq<IpAddr>) {
    && s.domain == e.domain && s.protocol == e.protocol && s.client == e.client && s.cursor == e.cursor
    && (s.domain.Some? || !s.NoAddress())
    && ( || (Known(s, answer) && Known(e, answer))
         || (Known(e, answer) && s.NoAddress() && s.domain.Some?)
         || (s.destinationIp == e.destinationIp && s.destinationIps == e.destinationIps
             && (s.NoAddress() && s.domain.Some? ==> answer == [])))
  }

  lemma SameAddressSetSameNext(rules: seq<Rule>, c: Context, c': Context, from: nat)
    requires Below(c, c') && Below(c', c)
    ensures NextAction(rules, c, from) == NextAction(rules, c', from)
  {
    forall i | 0 <= i < |rules| ensures MatchVector(rules, c)[i] == MatchVector(rules, c')[i] {
      AddressSetDetermines(rules[i], c, c', Normalized(c));
    }
    assert MatchVector(rules, c) == MatchVector(rules, c');
  }

  /** From related states both routers find the same next rule. */
  lemma RelatedNext(env: Env, s: State, e: State, answer: seq<IpAddr>)
    requires AllLazySafe(env.rules) && Related(s, e, answer)
    ensures LookupAndResolve(env.rules, ContextOf(env, s), s.cursor, answer) ==
      NextAction(env.rules, ContextOf(env, e), e.cursor)
  {
    var c, d := ContextOf(env, s), ContextOf(env, e);
    LazyAgreesWithEager(env.rules, c, s.cursor, answer);
    SameAddressSetSameNext(env.rules, Eager(c, answer), d, s.cursor);
  }

  lemma RelatedResolveAction(env: Env, s: State, e: State, answer: seq<IpAddr>, i: nat, strategy: string)
    requires ValidEnv(env) && Steady(env, answer) && Related(s, e, answer)
    ensures
      match (AfterResolveAction(env, s, i, strategy), AfterResolveAction(env, e, i, strategy))
      case (Ok(s'), Ok(e')) => Related(s', e', answer)
      case (Err, Err) => true
      case _ => false
  {
  }

  lemma RelatedSniff(env: Env, s: State, e: State, answer: seq<IpAddr>, i: nat)
    requires Steady(env, answer) && Related(s, e, answer)
    ensures Related(AfterSniff(env, s, i), AfterSniff(env, e, i), answer)
  {
  }

  lemma RelatedAct(env: Env, s: State, e: State, acted: seq<nat>, answer: seq<IpAddr>, i: nat)
    requires ValidEnv(env) && Steady(env, answer) && Related(s, e, answer) && i < |env.rules|
    ensures
      match (ActOn(env, s, acted, i), ActOn(env, e, acted, i))
      case (Done(a), Done(b)) => SameRouting(a, b)
      case (Continue(s', l), Continue(e', l')) => l == l' && Related(s', e', answer)
      case _ => false
  {
    var s', e' := s.(cursor := i + 1), e.(cursor := i + 1);
    assert Related(s', e', answer);
    match env.rules[i].action
    case Route(_) =>
    case RouteOptions =>
    case Resolve(strategy) => RelatedResolveAction(env, s', e', answer, i, strategy);
    case Sniff => RelatedSniff(env, s', e', answer, i);
  }

  lemma EagerCursor(env: Env, e: State, acted: seq<nat>, to: nat)
    requires NextAction(env.rules, ContextOf(env, e), e.cursor) == NextAction(env.rules, ContextOf(env, e), to)
    ensures EvaluateEager(env, e, acted) == EvaluateEager(env, e.(cursor := to), acted)
  {
    hide NextAction, ActOn;
    assert ContextOf(env, e.(cursor := to)) == ContextOf(env, e);
    var next := NextAction(env.rules, ContextOf(env, e), to);
    if next.Some? { ActIgnoresCursor(env, e, acted, next.value, to); }
  }

  lemma ActIgnoresCursor(env: Env, s: State, acted: seq<nat>, i: nat, to: nat)
    requires i < |env.rules|
    ensures ActOn(env, s, acted, i) == ActOn(env, s.(cursor := to), acted, i)
  {
  }

  lemma RelatedAfterNeed(env: Env, s: State, e: State, answer: seq<IpAddr>, i: nat)
    requires Steady(env, answer) && Related(s, e, answer) && NeedsIp(ContextOf(env, s))
    ensures
      var s' := AfterNeedResolve(env, s, i);
      var e' := e.(cursor := s'.cursor);
      && Related(s', e', answer)
      && ContextOf(env, s') == Resolved(ContextOf(env, s), answer)
      && ContextOf(env, e') == ContextOf(env, e)
      && s'.cursor == if answer == [] then i + 1 else i
  {
    assert env.needAnswer(i) == answer;
  }

  /** A resolution on demand keeps the states related and is invisible to the eager evaluation. */
  lemma RelatedNeedResolve(env: Env, s: State, e: State, acted: seq<nat>, answer: seq<IpAddr>, i: nat)
    requires AllLazySafe(env.rules) && Steady(env, answer) && Related(s, e, answer)
    requires NextActionLazy(env.rules, ContextOf(env, s), s.cursor) == NeedResolve(i)
    ensures
      var s' := AfterNeedResolve(env, s, i);
      var e' := e.(cursor := s'.cursor);
      Related(s', e', answer) && EvaluateEager(env, e, acted) == EvaluateEager(env, e', acted)
  {
    hide NextAction, NextActionLazy, LookupAndResolve, Related, EvaluateEager, AllLazySafe, Steady, AfterNeedResolve;
    NeedResolveStep(env.rules, ContextOf(env, s), s.cursor, answer);
    var s' := AfterNeedResolve(env, s, i);
    var e' := e.(cursor := s'.cursor);
    RelatedAfterNeed(env, s, e, answer, i);
    RelatedNext(env, s, e, answer);
    RelatedNext(env, s', e', answer);
    EagerCursor(env, e, acted, s'.cursor);
  }

  lemma {:induction false} RelatedEvaluation(env: Env, s: State, e: State, acted: seq<nat>, answer: seq<IpAddr>)
    requires ValidEnv(env) && AllLazySafe(env.rules) && Steady(env, answer) && Related(s, e, answer)
    ensures SameRouting(Evaluate(env, s, acted), EvaluateEager(env, e, acted))
    decreases |env.rules| - s.cursor, if s.NoAddress() then 1 else 0
  {
    var c := ContextOf(env, s);
    var round := RoundOf(env, s, acted);
    match NextActionLazy(env.rules, c, s.cursor)
    case NoMatch =>
      RelatedNext(env, s, e, answer);
    case Action(i) =>
      RelatedNext(env, s, e, answer);
      RelatedAct(env, s, e, acted, answer, i);
      var other := ActOn(env, e, acted, i);
      if round.Continue? {
        RelatedEvaluation(env, round.state, other.state, round.acted, answer);
      }
    case NeedResolve(i) =>
      RelatedNeedResolve(env, s, e, acted, answer, i);
      RelatedEvaluation(env, round.state, e.(cursor := round.state.cursor), acted, answer);
  }

  /**
   Lazy evaluation takes the same decision, acting on the same rules in the same order, as the
   evaluation that resolves the destination first and then uses plain first match throughout.
   */
  lemma LazyEvaluationAgreesWithEager(env: Env, destination: Destination, answer: seq<IpAddr>)
    requires ValidEnv(env) && AllLazySafe(env.rules) && Steady(env, answer)
    ensures SameRouting(Evaluate(env, Start(destination), []),
                        EvaluateEager(env, EagerState(Start(destination), answer), []))
  {
    hide Evaluate, EvaluateEager, Steady;
    var s := Start(destination);
    RelatedEvaluation(env, s, EagerState(s, answer), [], answer);
  }

  // ---------------------------------------------------------------- scoped metadata

  /** Actions never look at metadata, so equal lookups give equal rounds. */
  lemma RoundNonInterference(env: Env, m: Metadata, s: State, acted: seq<nat>)
    requires ValidEnv(env) && AgreeOn(RulesScope(env.rules), env.metadata, m)
    ensures RoundOf(env, s, acted) == RoundOf(env.(metadata := m), s, acted)
  {
    hide NextActionLazy, AgreeOn, RulesScope, Matches;
    var env' := env.(metadata := m);
    var lookup := NextActionLazy(env.rules, ContextOf(env, s), s.cursor);
    assert lookup == NextActionLazy(env'.rules, ContextOf(env', s), s.cursor) by {
      LookupNonInterference(env.rules, ContextOf(env, s), ContextOf(env', s), s.cursor);
    }
    match lookup
    case NoMatch =>
    case NeedResolve(i) => assert AfterNeedResolve(env, s, i) == AfterNeedResolve(env', s, i);
    case Action(i) => assert ActOn(env, s, acted, i) == ActOn(env', s, acted, i);
  }

  lemma {:induction false} EvaluationNonInterference(env: Env, m: Metadata, s: State, acted: seq<nat>)
    requires ValidEnv(env) && AgreeOn(RulesScope(env.rules), env.metadata, m)
    ensures Evaluate(env, s, acted) == Evaluate(env.(metadata := m), s, acted)
    decreases |env.rules| - s.cursor, if s.NoAddress() then 1 else 0
  {
    RoundNonInterference(env, m, s, acted);
    var round := RoundOf(env, s, acted);
    if round.Continue? {
      EvaluationNonInterference(env, m, round.state, round.acted);
    }
  }

  /** A whole evaluation with scoped metadata equals the one with all metadata collected. */
  lemma ScopedEvaluationSuffices(env: Env, os: OsFacts, destination: Destination)
    requires ValidEnv(env)
    ensures Evaluate(env.(metadata := Collect(os, RulesScope(env.rules))), Start(destination), [])
         == Evaluate(env.(metadata := Collect(os, FullScope)), Start(destination), [])
  {
    CollectAgrees(os, RulesScope(env.rules));
    EvaluationNonInterference(env.(metadata := Collect(os, RulesScope(env.rules))), Collect(os, FullScope),
      Start(destination), []);
  }
}
