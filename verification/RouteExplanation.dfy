/**
 What a whole route evaluation (src/proxy/route.rs) decides, told from its history: the rules it
 acted on and the rules at which it asked for addresses. Every later lookup sees what the last sniff
 and the last resolution before it found.
 */
module RouteExplanation {
  import opened Basics
  import opened RouteRules
  import opened RuleScan
  import opened LazyRouting
  import opened RouteEvaluation

  datatype Event = Acted(rule: nat) | Asked(rule: nat)

  type History = seq<Event>

  // ---------------------------------------------------------------- what is known after a history

  predicate ActsAs(env: Env, e: Event, action: RuleAction) {
    e.Acted? && e.rule < |env.rules| && env.rules[e.rule].action == action
  }

  /** What the event sniffed. */
  function Sniffed(env: Env, e: Event): Option<SniffResult> {
    if ActsAs(env, e, Sniff) then env.sniff(e.rule) else None
  }

  /** What was sniffed last. */
  function LastSniff(env: Env, h: History): Option<SniffResult> {
    if h == [] then None
    else if Sniffed(env, h[|h| - 1]).Some? then Sniffed(env, h[|h| - 1])
    else LastSniff(env, h[..|h| - 1])
  }

  /** The name sniffed last, or that of the destination. */
  function LastName(env: Env, destination: Destination, h: History): Option<string> {
    if h == [] then (if destination.Domain? then Some(destination.name) else None)
    else
      var sniffed := Sniffed(env, h[|h| - 1]);
      if sniffed.Some? && sniffed.value.domain.Some? then sniffed.value.domain
      else LastName(env, destination, h[..|h| - 1])
  }

  datatype Found = Found(addresses: seq<IpAddr>, selected: Option<IpAddr>)

  /** What the event learns when there is a resolver and a name. */
  function Learned(env: Env, e: Event): Option<Found> {
    if e.Asked? then
      var answer := env.needAnswer(e.rule);
      Some(Found(answer, if answer == [] then None else Some(answer[0])))
    else if e.rule < |env.rules| && env.rules[e.rule].action.Resolve? && env.actionAnswer(e.rule).Ok? then
      var answer := env.actionAnswer(e.rule).value;
      Some(Found(answer, SelectAddress(answer, env.rules[e.rule].action.strategy)))
    else None
  }

  /** What the last resolution found. */
  function LastFound(env: Env, destination: Destination, h: History): Option<Found> {
    if h == [] then None
    else
      var front, e := h[..|h| - 1], h[|h| - 1];
      if env.hasResolver && LastName(env, destination, front).Some? && Learned(env, e).Some? then Learned(env, e)
      else LastFound(env, destination, front)
  }

  /** The context in which the lookup after the history takes place. */
  function Seen(env: Env, destination: Destination, h: History): Context {
    var found, sniffed := LastFound(env, destination, h), LastSniff(env, h);
    Context(
      LastName(env, destination, h),
      if found.Some? then found.value.selected else if destination.Ip? then Some(destination.address) else None,
      if found.Some? then found.value.addresses else [],
      env.connection.(
        protocol := if sniffed.Some? then Some(sniffed.value.protocol) else None,
        client := if sniffed.Some? then sniffed.value.client else None),
      env.metadata)
  }

  /** Where that lookup starts: behind the last rule, or at it once it got its addresses. */
  function From(env: Env, h: History): nat {
    if h == [] then 0
    else
      var e := h[|h| - 1];
      if e.Asked? && env.hasResolver && env.needAnswer(e.rule) != [] then e.rule else e.rule + 1
  }

  // ---------------------------------------------------------------- histories that the rules justify

  ghost predicate Passed(env: Env, c: Context, from: nat, to: nat) {
    forall j :: from <= j < to && j < |env.rules| ==>
      !Matches(env.rules[j], c, Normalized(c)) && !WantsAddress(env.rules[j], c)
  }

  /** The event is what the first rule that matches or asks, from `from` on, brings about. */
  ghost predicate Justified(env: Env, c: Context, from: nat, e: Event) {
    && from <= e.rule < |env.rules| && Passed(env, c, from, e.rule)
    && (e.Acted? <==> Matches(env.rules[e.rule], c, Normalized(c)))
    && (e.Asked? ==> WantsAddress(env.rules[e.rule], c))
  }

  /** The event resolves at the word of a rule, and the resolution fails. */
  ghost predicate Fails(env: Env, destination: Destination, before: History, e: Event) {
    && e.Acted? && e.rule < |env.rules| && env.rules[e.rule].action.Resolve?
    && env.hasResolver && LastName(env, destination, before).Some? && env.actionAnswer(e.rule).Err?
  }

  ghost predicate Decides(env: Env, e: Event) {
    e.Acted? && e.rule < |env.rules| && env.rules[e.rule].action.Route?
  }

  /** Every event is justified by what was known before it. */
  ghost predicate AllJustified(env: Env, destination: Destination, h: History) {
    forall k :: 0 <= k < |h| ==> Justified(env, Seen(env, destination, h[..k]), From(env, h[..k]), h[k])
  }

  /** No event among the first `n` ends the evaluation. */
  ghost predicate GoesOn(env: Env, destination: Destination, h: History, n: nat)
    requires n <= |h|
  {
    forall k :: 0 <= k < n ==> !Decides(env, h[k]) && !Fails(env, destination, h[..k], h[k])
  }

  function ActedRules(h: History): seq<nat> {
    if h == [] then []
    else ActedRules(h[..|h| - 1]) + if h[|h| - 1].Acted? then [h[|h| - 1].rule] else []
  }

  /** The history tells how the evaluation came to its outcome. */
  ghost predicate Explains(env: Env, destination: Destination, h: History, outcome: Outcome) {
    && AllJustified(env, destination, h)
    && GoesOn(env, destination, h, if h == [] then 0 else |h| - 1)
    && match outcome
       case Failed => h != [] && Fails(env, destination, h[..|h| - 1], h[|h| - 1])
       case Decided(decision, acted, addresses) =>
         && acted == ActedRules(h)
         && addresses == Seen(env, destination, h).destinationIps
         && if h != [] && Decides(env, h[|h| - 1])
            then decision == env.rules[h[|h| - 1].rule].action.decision
            else
              && decision == Outbound(env.finalOutbound)
              && GoesOn(env, destination, h, |h|)
              && Passed(env, Seen(env, destination, h), From(env, h), |env.rules|)
  }

  // ---------------------------------------------------------------- every evaluation has such a history

  /** The state of the loop is what the history says. */
  ghost predicate Tells(env: Env, destination: Destination, h: History, s: State, acted: seq<nat>) {
    && ContextOf(env, s) == Seen(env, destination, h)
    && s.cursor == From(env, h)
    && s.resolved == LastFound(env, destination, h).Some?
    && acted == ActedRules(h)
    && AllJustified(env, destination, h) && GoesOn(env, destination, h, |h|)
  }

  lemma LookupJustified(env: Env, c: Context, from: nat)
    ensures
      match NextActionLazy(env.rules, c, from)
      case NoMatch => Passed(env, c, from, |env.rules|)
      case Action(i) => Justified(env, c, from, Acted(i))
      case NeedResolve(i) => Justified(env, c, from, Asked(i))
  {
    hide Matches, WantsAddress;
    var now, wants := MatchVector(env.rules, c), WantsVector(env.rules, c);
    assert forall j :: 0 <= j < |env.rules| ==>
      now[j] == Matches(env.rules[j], c, Normalized(c)) && wants[j] == WantsAddress(env.rules[j], c);
  }

  lemma Append(env: Env, destination: Destination, h: History, e: Event)
    requires AllJustified(env, destination, h) && GoesOn(env, destination, h, |h|)
    requires Justified(env, Seen(env, destination, h), From(env, h), e)
    ensures AllJustified(env, destination, h + [e]) && GoesOn(env, destination, h + [e], |h|)
    ensures !Decides(env, e) && !Fails(env, destination, h, e) ==> GoesOn(env, destination, h + [e], |h| + 1)
  {
    hide Justified, Seen, From, Decides, Fails;
    var h' := h + [e];
    assert h'[..|h|] == h;
    assert forall k :: 0 <= k < |h| ==> h'[..k] == h[..k] && h'[k] == h[k];
  }

  /** What one more event adds. */
  lemma HistoryAppend(env: Env, destination: Destination, h: History, e: Event)
    ensures
      var h', sniffed := h + [e], Sniffed(env, e);
      && LastSniff(env, h') == (if sniffed.Some? then sniffed else LastSniff(env, h))
      && LastName(env, destination, h') ==
           (if sniffed.Some? && sniffed.value.domain.Some? then sniffed.value.domain else LastName(env, destination, h))
      && LastFound(env, destination, h') ==
           (if env.hasResolver && LastName(env, destination, h).Some? && Learned(env, e).Some? then Learned(env, e)
            else LastFound(env, destination, h))
      && ActedRules(h') == ActedRules(h) + if e.Acted? then [e.rule] else []
  {
    hide Sniffed, Learned;
    assert (h + [e])[..|h|] == h;
  }

  lemma ActedContinues(env: Env, destination: Destination, h: History, s: State, acted: seq<nat>, i: nat)
    requires i < |env.rules| && Tells(env, destination, h, s, acted)
    requires ActOn(env, s, acted, i).Continue?
    ensures
      var r, h' := ActOn(env, s, acted, i), h + [Acted(i)];
      && ContextOf(env, r.state) == Seen(env, destination, h')
      && r.state.cursor == From(env, h') && r.state.resolved == LastFound(env, destination, h').Some?
      && r.acted == ActedRules(h')
      && !Decides(env, Acted(i)) && !Fails(env, destination, h, Acted(i))
  {
    hide AllJustified, GoesOn, SelectAddress, LastSniff, LastName, LastFound, ActedRules;
    HistoryAppend(env, destination, h, Acted(i));
  }

  lemma AskedContinues(env: Env, destination: Destination, h: History, s: State, acted: seq<nat>, i: nat)
    requires i < |env.rules| && Tells(env, destination, h, s, acted) && NeedsIp(ContextOf(env, s))
    ensures
      var s', h' := AfterNeedResolve(env, s, i), h + [Asked(i)];
      && ContextOf(env, s') == Seen(env, destination, h')
      && s'.cursor == From(env, h') && s'.resolved == LastFound(env, destination, h').Some?
      && acted == ActedRules(h')
      && !Decides(env, Asked(i)) && !Fails(env, destination, h, Asked(i))
  {
    hide AllJustified, GoesOn, SelectAddress, LastSniff, LastName, LastFound, ActedRules;
    HistoryAppend(env, destination, h, Asked(i));
    assert ActedRules(h) + [] == ActedRules(h);
  }

  lemma ActedEnds(env: Env, destination: Destination, h: History, s: State, acted: seq<nat>, i: nat)
    requires Tells(env, destination, h, s, acted)
    requires Justified(env, Seen(env, destination, h), From(env, h), Acted(i))
    requires ActOn(env, s, acted, i).Done?
    ensures Explains(env, destination, h + [Acted(i)], ActOn(env, s, acted, i).outcome)
  {
    hide AllJustified, GoesOn, Justified, SelectAddress, LastSniff, LastName, LastFound, ActedRules;
    assert i < |env.rules| by { JustifiedInside(env, Seen(env, destination, h), From(env, h), Acted(i)); }
    var h' := h + [Acted(i)];
    Append(env, destination, h, Acted(i));
    HistoryAppend(env, destination, h, Acted(i));
    assert h'[..|h|] == h && h'[|h'| - 1] == Acted(i);
  }

  lemma JustifiedInside(env: Env, c: Context, from: nat, e: Event)
    requires Justified(env, c, from, e)
    ensures from <= e.rule < |env.rules|
  {
  }

  lemma {:induction false} EvaluationFrom(env: Env, destination: Destination, s: State, acted: seq<nat>, h: History)
    returns (h': History)
    requires ValidEnv(env) && Tells(env, destination, h, s, acted)
    ensures Explains(env, destination, h', Evaluate(env, s, acted))
    decreases |env.rules| - s.cursor, if s.NoAddress() then 1 else 0
  {
    hide NextActionLazy, ActOn, AfterNeedResolve, Justified, Passed, Seen, From, LastFound, Decides, Fails, ActedRules;
    hide AllJustified, GoesOn;
    LookupJustified(env, ContextOf(env, s), s.cursor);
    var round := RoundOf(env, s, acted);
    match NextActionLazy(env.rules, ContextOf(env, s), s.cursor)
    case NoMatch =>
      h' := h;
      NoMatchEnds(env, destination, h, s, acted);
    case NeedResolve(i) =>
      AskedContinues(env, destination, h, s, acted, i);
      Append(env, destination, h, Asked(i));
      h' := EvaluationFrom(env, destination, round.state, acted, h + [Asked(i)]);
    case Action(i) =>
      if round.Done? {
        ActedEnds(env, destination, h, s, acted, i);
        h' := h + [Acted(i)];
      } else {
        ActedContinues(env, destination, h, s, acted, i);
        Append(env, destination, h, Acted(i));
        h' := EvaluationFrom(env, destination, round.state, round.acted, h + [Acted(i)]);
      }
  }

  lemma NoMatchEnds(env: Env, destination: Destination, h: History, s: State, acted: seq<nat>)
    requires Tells(env, destination, h, s, acted)
    requires Passed(env, Seen(env, destination, h), From(env, h), |env.rules|)
    ensures Explains(env, destination, h, Decided(Outbound(env.finalOutbound), acted, s.Reported()))
  {
    hide AllJustified, Passed, LastName;
  }

  /** Every evaluation is explained by a history of rules acted on and asked about. */
  lemma EvaluationExplained(env: Env, destination: Destination) returns (h: History)
    requires ValidEnv(env)
    ensures Explains(env, destination, h, Evaluate(env, Start(destination), []))
  {
    hide Evaluate;
    assert Tells(env, destination, [], Start(destination), []);
    h := EvaluationFrom(env, destination, Start(destination), [], []);
  }

  // ---------------------------------------------------------------- the history decides

  lemma JustifiedOnce(env: Env, c: Context, from: nat, e: Event, e': Event)
    requires Justified(env, c, from, e) && Justified(env, c, from, e')
    ensures e == e'
  {
    hide Matches, WantsAddress;
  }

  lemma JustifiedNotPassed(env: Env, c: Context, from: nat, e: Event)
    requires Justified(env, c, from, e)
    ensures !Passed(env, c, from, |env.rules|)
  {
    hide Matches, WantsAddress;
  }

  lemma {:induction false} CommonPrefix(env: Env, destination: Destination, h: History, h': History, n: nat)
    requires AllJustified(env, destination, h) && AllJustified(env, destination, h') && n <= |h| && n <= |h'|
    ensures h[..n] == h'[..n]
    decreases n
  {
    hide Justified, Seen, From;
    if n > 0 {
      var k := n - 1;
      CommonPrefix(env, destination, h, h', k);
      JustifiedOnce(env, Seen(env, destination, h[..k]), From(env, h[..k]), h[k], h'[k]);
      assert h[..n] == h[..k] + [h[k]] && h'[..n] == h'[..k] + [h'[k]];
    }
  }

  lemma SameLast(h: History, h': History)
    requires 0 < |h| <= |h'| && h == h'[..|h|]
    ensures h[|h| - 1] == h'[|h| - 1] && h[..|h| - 1] == h'[..|h| - 1]
  {
  }

  /** Nothing goes on where an explained evaluation ended. */
  lemma NotLonger(env: Env, destination: Destination, h: History, o: Outcome, h': History, o': Outcome)
    requires Explains(env, destination, h, o) && Explains(env, destination, h', o')
    ensures |h'| <= |h|
  {
    hide Justified, Passed, Seen, From, Decides, Fails, ActedRules;
    if |h| < |h'| {
      CommonPrefix(env, destination, h, h', |h|);
      assert h[..|h|] == h == h'[..|h|];
      if h != [] {
        SameLast(h, h');
      }
      JustifiedNotPassed(env, Seen(env, destination, h), From(env, h), h'[|h|]);
    }
  }

  /** Only one history explains an evaluation, and it leaves no choice of outcome. */
  lemma ExplanationDecides(env: Env, destination: Destination, h: History, outcome: Outcome)
    requires ValidEnv(env) && Explains(env, destination, h, outcome)
    ensures outcome == Evaluate(env, Start(destination), [])
  {
    hide Evaluate, Justified, Passed, Seen, From, Decides, Fails, ActedRules;
    var actual := Evaluate(env, Start(destination), []);
    var h' := EvaluationExplained(env, destination);
    NotLonger(env, destination, h, outcome, h', actual);
    NotLonger(env, destination, h', actual, h, outcome);
    CommonPrefix(env, destination, h, h', |h|);
    assert h == h[..|h|] == h'[..|h|] == h';
    OutcomeOf(env, destination, h, outcome, actual);
  }

  lemma OutcomeOf(env: Env, destination: Destination, h: History, o: Outcome, o': Outcome)
    requires Explains(env, destination, h, o) && Explains(env, destination, h, o')
    ensures o == o'
  {
    hide AllJustified, Passed, Seen, From, ActedRules, LastName;
    if h != [] {
      var k := |h| - 1;
      assert Fails(env, destination, h[..k], h[k]) ==> !Decides(env, h[k]);
    }
  }

  // ---------------------------------------------------------------- in terms of the rules acted on

  ghost predicate Increasing(acted: seq<nat>, below: nat) {
    && (forall a, b :: 0 <= a < b < |acted| ==> acted[a] < acted[b])
    && (forall a :: 0 <= a < |acted| ==> acted[a] < below)
  }

  lemma IncreasingAppend(acted: seq<nat>, below: nat, i: nat)
    requires Increasing(acted, below) && below <= i
    ensures Increasing(acted, i) && Increasing(acted + [i], i + 1)
  {
  }

  lemma JustifiedBefore(env: Env, destination: Destination, h: History)
    requires AllJustified(env, destination, h) && h != []
    ensures AllJustified(env, destination, h[..|h| - 1])
    ensures From(env, h[..|h| - 1]) <= h[|h| - 1].rule < |env.rules|
  {
    hide Seen, Passed, From, Justified;
    var front, k := h[..|h| - 1], |h| - 1;
    assert forall j :: 0 <= j < k ==> front[..j] == h[..j] && front[j] == h[j];
    JustifiedInside(env, Seen(env, destination, h[..k]), From(env, h[..k]), h[k]);
  }

  lemma {:induction false} ActedIncrease(env: Env, destination: Destination, h: History)
    requires AllJustified(env, destination, h)
    ensures Increasing(ActedRules(h), From(env, h)) && From(env, h) <= |env.rules|
    decreases |h|
  {
    hide AllJustified, Increasing;
    if h == [] {
      assert Increasing([], 0) by { NothingIncreases(); }
    } else {
      var front, e := h[..|h| - 1], h[|h| - 1];
      JustifiedBefore(env, destination, h);
      ActedIncrease(env, destination, front);
      IncreasingAppend(ActedRules(front), From(env, front), e.rule);
      if e.Asked? {
        assert ActedRules(h) == ActedRules(front);
        IncreasingAppend(ActedRules(front), e.rule, e.rule + 1);
      }
    }
  }

  lemma NothingIncreases()
    ensures Increasing([], 0)
  {
  }

  /** Rules acted on before the end are not route rules. */
  lemma {:induction false} ActedGoOn(env: Env, destination: Destination, h: History, n: nat)
    requires n <= |h| && GoesOn(env, destination, h, n)
    ensures forall i :: i in ActedRules(h[..n]) && i < |env.rules| ==> !env.rules[i].action.Route?
    decreases n
  {
    hide Fails;
    if n > 0 {
      ActedGoOn(env, destination, h, n - 1);
      assert h[..n][..n - 1] == h[..n - 1];
      assert !Decides(env, h[n - 1]);
    }
  }

  /**
   An evaluation acts on rules in order. The first route rule among them decides, and ends it;
   without one the final outbound decides. It fails only at a resolve rule whose resolution fails.
   */
  lemma DecisionFollowsRules(env: Env, destination: Destination)
    requires ValidEnv(env)
    ensures
      match Evaluate(env, Start(destination), [])
      case Decided(decision, acted, _) =>
        && Increasing(acted, |env.rules|)
        && (forall a :: 0 <= a < |acted| - 1 ==> !env.rules[acted[a]].action.Route?)
        && decision ==
             if acted != [] && env.rules[acted[|acted| - 1]].action.Route?
             then env.rules[acted[|acted| - 1]].action.decision
             else Outbound(env.finalOutbound)
      case Failed =>
        exists i :: 0 <= i < |env.rules| && env.rules[i].action.Resolve? && env.hasResolver && env.actionAnswer(i).Err?
  {
    hide Evaluate, AllJustified, Passed, Seen, LastName;
    var h := EvaluationExplained(env, destination);
    var outcome := Evaluate(env, Start(destination), []);
    ActedIncrease(env, destination, h);
    if outcome.Decided? && h != [] {
      var n := |h| - 1;
      ActedGoOn(env, destination, h, n);
      if !Decides(env, h[n]) {
        ActedGoOn(env, destination, h, |h|);
        assert h[..|h|] == h;
      }
    }
  }

  // ---------------------------------------------------------------- nothing is resolved for nothing

  ghost predicate NoneTestsAddress(rules: seq<Rule>) {
    forall i :: 0 <= i < |rules| ==> WellCompiled(rules[i]) && !TestsAddress(rules[i])
  }

  lemma SameRound(env: Env, answer: nat -> seq<IpAddr>, s: State, acted: seq<nat>)
    requires ValidEnv(env) && NoneTestsAddress(env.rules)
    ensures RoundOf(env, s, acted) == RoundOf(env.(needAnswer := answer), s, acted)
  {
    hide NextActionLazy, TestsAddress, WellCompiled;
    var env' := env.(needAnswer := answer);
    assert ContextOf(env, s) == ContextOf(env', s);
    var lookup := NextActionLazy(env.rules, ContextOf(env, s), s.cursor);
    if lookup.NeedResolve? {
      AsksOnlyIfTested(env.rules, ContextOf(env, s), s.cursor);
    } else if lookup.Action? {
      assert ActOn(env, s, acted, lookup.index) == ActOn(env', s, acted, lookup.index);
    }
  }

  /** An evaluation over compiled rules that test no address does not depend on what asking would answer. */
  lemma {:induction false} NothingAsked(env: Env, answer: nat -> seq<IpAddr>, s: State, acted: seq<nat>)
    requires ValidEnv(env) && NoneTestsAddress(env.rules)
    ensures Evaluate(env, s, acted) == Evaluate(env.(needAnswer := answer), s, acted)
    decreases |env.rules| - s.cursor, if s.NoAddress() then 1 else 0
  {
    hide NoneTestsAddress;
    SameRound(env, answer, s, acted);
    var round := RoundOf(env, s, acted);
    if round.Continue? {
      NothingAsked(env, answer, round.state, round.acted);
    }
  }
}
