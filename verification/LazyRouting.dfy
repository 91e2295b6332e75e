/**
 Lazy rule lookup (src/routing.rs) against plain first-match on a context whose addresses
 were resolved up front.
 */
module LazyRouting {
  import opened Basics
  import opened RouteRules
  import opened RuleScan

  function Normalized(c: Context): Option<string> {
    if c.domain.Some? then Some(NormalizeDomain(c.domain.value)) else None
  }

  predicate NeedsIp(c: Context) {
    c.NoAddress() && c.domain.Some?
  }

  /** The lookup stops at this rule to ask for an address. */
  predicate WantsAddress(r: Rule, c: Context) {
    NeedsIp(c) && r.requiresDestinationIp && DomainFieldsMatch(r, Normalized(c))
  }

  function MatchVector(rules: seq<Rule>, c: Context): seq<bool> {
    seq(|rules|, i requires 0 <= i < |rules| => Matches(rules[i], c, Normalized(c)))
  }

  function WantsVector(rules: seq<Rule>, c: Context): seq<bool> {
    seq(|rules|, i requires 0 <= i < |rules| => WantsAddress(rules[i], c))
  }

  /** `Router::next_action`: the first matching rule at or after `from`. */
  function NextAction(rules: seq<Rule>, c: Context, from: nat): (r: Option<nat>)
    ensures r.Some? ==> from <= r.value < |rules|
  {
    First(MatchVector(rules, c), from)
  }

  /** `Router::next_action_lazy` as a function of its snapshot of the rules. */
  function NextActionLazy(rules: seq<Rule>, c: Context, from: nat): (r: ActionLookup)
    ensures !r.NoMatch? ==> from <= r.index < |rules|
    ensures r.NeedResolve? ==> NeedsIp(c)
  {
    Scan(MatchVector(rules, c), WantsVector(rules, c), from)
  }

  /** The loop of `next_action_lazy`, with its two tests hoisted as in the source. */
  method FindActionLazy(rules: seq<Rule>, c: Context, from: nat) returns (r: ActionLookup)
    ensures r == NextActionLazy(rules, c, from)
  {
    var domain := Normalized(c);
    var needsIp := c.NoAddress() && c.domain.Some?;
    var index := from;
    while index < |rules|
      invariant from <= index
      invariant NextActionLazy(rules, c, from) == NextActionLazy(rules, c, index)
    {
      if Matches(rules[index], c, domain) {
        return Action(index);
      }
      if needsIp && rules[index].requiresDestinationIp && DomainFieldsMatch(rules[index], domain) {
        return NeedResolve(index);
      }
      index := index + 1;
    }
    return NoMatch;
  }

  // ---------------------------------------------------------------- contexts that differ in addresses

  /** The contexts agree on everything but the candidate addresses. */
  ghost predicate SameButAddresses(c: Context, c': Context) {
    c.domain == c'.domain && c.connection == c'.connection && c.metadata == c'.metadata
  }

  /** Every candidate address of `c` is one of `c'`, also after the source substitution. */
  ghost predicate Below(c: Context, c': Context) {
    && SameButAddresses(c, c')
    && (forall ip :: ip in c.destinationIps ==> ip in c'.destinationIps)
    && (c.destinationIp.Some? ==> c'.HasAddress(c.destinationIp.value))
  }

  lemma AnyAddressMonotone(c: Context, c': Context, test: IpAddr -> bool)
    requires Below(c, c')
    ensures c.AnyAddress(test) ==> c'.AnyAddress(test)
  {
    if i :| 0 <= i < |c.destinationIps| && test(c.destinationIps[i]) {
      assert c.destinationIps[i] in c'.destinationIps;
      var k :| 0 <= k < |c'.destinationIps| && c'.destinationIps[k] == c.destinationIps[i];
      assert test(c'.destinationIps[k]);
    } else if c.destinationIp.Some? && test(c.destinationIp.value) {
      if c.destinationIp.value in c'.destinationIps {
        var k :| 0 <= k < |c'.destinationIps| && c'.destinationIps[k] == c.destinationIp.value;
        assert test(c'.destinationIps[k]);
      }
    }
  }

  lemma MatchAddressesMonotone(f: Fields, c: Context, c': Context)
    requires Below(c, c')
    ensures MatchAddresses(f, c) ==> MatchAddresses(f, c')
  {
    AnyAddressMonotone(c, c', ip => AnyNet(f.cidrs, ip));
    AnyAddressMonotone(c, c', ip => AnyVersion(f.ipVersions, ip));
    AnyAddressMonotone(c, c', ip => IsPrivate(ip));
  }

  /** A rule whose compiled flag is off gives the same answer whatever addresses are known. */
  lemma {:induction false} AddressIndependent(r: Rule, c: Context, c': Context, domain: Option<string>)
    requires WellCompiled(r) && !r.requiresDestinationIp && SameButAddresses(c, c')
    ensures Matches(r, c, domain) == Matches(r, c', domain)
    decreases r
  {
    if r.logicalMode.Some? {
      forall i | 0 <= i < |r.logicalRules|
        ensures Matches(r.logicalRules[i], c, domain) == Matches(r.logicalRules[i], c', domain)
      {
        AddressIndependent(r.logicalRules[i], c, c', domain);
      }
    } else {
      var d, d' := if r.matchSource then c.ForSource() else c, if r.matchSource then c'.ForSource() else c';
      forall s, i | 0 <= s < |r.ruleSets| && 0 <= i < |r.ruleSets[s].rules|
        ensures Matches(r.ruleSets[s].rules[i], d, domain) == Matches(r.ruleSets[s].rules[i], d', domain)
      {
        AddressIndependent(r.ruleSets[s].rules[i], d, d', domain);
      }
      assert NoAddressTests(r.fields);
    }
  }

  /** Any rule, inverted or not, sees only the set of candidate addresses. */
  lemma {:induction false} AddressSetDetermines(r: Rule, c: Context, c': Context, domain: Option<string>)
    requires Below(c, c') && Below(c', c)
    ensures Matches(r, c, domain) == Matches(r, c', domain)
    decreases r
  {
    if r.logicalMode.Some? {
      forall i | 0 <= i < |r.logicalRules|
        ensures Matches(r.logicalRules[i], c, domain) == Matches(r.logicalRules[i], c', domain)
      {
        AddressSetDetermines(r.logicalRules[i], c, c', domain);
      }
    } else {
      var d, d' := if r.matchSource then c.ForSource() else c, if r.matchSource then c'.ForSource() else c';
      forall s, i | 0 <= s < |r.ruleSets| && 0 <= i < |r.ruleSets[s].rules|
        ensures Matches(r.ruleSets[s].rules[i], d, domain) == Matches(r.ruleSets[s].rules[i], d', domain)
      {
        AddressSetDetermines(r.ruleSets[s].rules[i], d, d', domain);
      }
      MatchAddressesMonotone(r.fields, c, c');
      MatchAddressesMonotone(r.fields, c', c);
    }
  }

  // ---------------------------------------------------------------- which rules are safe to look up lazily

  ghost predicate InversionFree(r: Rule)
    decreases r
  {
    && !r.invert
    && (forall i :: 0 <= i < |r.logicalRules| ==> InversionFree(r.logicalRules[i]))
    && (forall s, i :: 0 <= s < |r.ruleSets| && 0 <= i < |r.ruleSets[s].rules| ==>
      InversionFree(r.ruleSets[s].rules[i]))
  }

  predicate DomainTestsOnly(f: Fields) {
    NoAddressTests(f) && NoConnectionTests(f) && FieldScope(f) == NoScope
  }

  /** The rule tests nothing but the domain, anywhere in its tree. */
  ghost predicate DomainOnly(r: Rule)
    decreases r
  {
    if r.logicalMode.Some? then
      forall i :: 0 <= i < |r.logicalRules| ==> DomainOnly(r.logicalRules[i])
    else
      && DomainTestsOnly(r.fields)
      && (forall s, i :: 0 <= s < |r.ruleSets| && 0 <= i < |r.ruleSets[s].rules| ==> DomainOnly(r.ruleSets[s].rules[i]))
  }

  /**
   Below an odd number of inversions (counting from `up`) no leaf tests an address. Then more
   addresses can only make the rule match (`up`), or only make it stop matching.
   */
  ghost predicate AddressPolar(r: Rule, up: bool)
    decreases r
  {
    var inner := up != r.invert;
    if r.logicalMode.Some? then
      forall i :: 0 <= i < |r.logicalRules| ==> AddressPolar(r.logicalRules[i], inner)
    else
      && (inner || NoAddressTests(r.fields))
      && (forall s, i :: 0 <= s < |r.ruleSets| && 0 <= i < |r.ruleSets[s].rules| ==>
        AddressPolar(r.ruleSets[s].rules[i], inner))
  }

  /**
   Below an odd number of inversions (counting from `up`) leaves test nothing but the domain. Then
   the domain test accepts whatever the rule matches (`up`), or only what it matches.
   */
  ghost predicate DomainPolar(r: Rule, up: bool)
    decreases r
  {
    var inner := up != r.invert;
    if r.logicalMode.Some? then
      forall i :: 0 <= i < |r.logicalRules| ==> DomainPolar(r.logicalRules[i], inner)
    else
      && (inner || DomainTestsOnly(r.fields))
      && (forall s, i :: 0 <= s < |r.ruleSets| && 0 <= i < |r.ruleSets[s].rules| ==>
        DomainPolar(r.ruleSets[s].rules[i], inner))
  }

  /** Rules that never need an address may be inverted freely. */
  ghost predicate LazySafe(r: Rule) {
    WellCompiled(r) && (r.requiresDestinationIp ==> DomainPolar(r, true))
  }

  ghost predicate AllLazySafe(rules: seq<Rule>) {
    forall i :: 0 <= i < |rules| ==> LazySafe(rules[i])
  }

  lemma {:induction false} InversionFreeIsPolar(r: Rule)
    requires InversionFree(r)
    ensures DomainPolar(r, true)
    decreases r
  {
    forall i | 0 <= i < |r.logicalRules| ensures DomainPolar(r.logicalRules[i], true) {
      InversionFreeIsPolar(r.logicalRules[i]);
    }
    forall s, i | 0 <= s < |r.ruleSets| && 0 <= i < |r.ruleSets[s].rules|
      ensures DomainPolar(r.ruleSets[s].rules[i], true)
    {
      InversionFreeIsPolar(r.ruleSets[s].rules[i]);
    }
  }

  /** A subtree that tests nothing but the domain may stand anywhere. */
  lemma {:induction false} DomainOnlyIsPolar(r: Rule, up: bool)
    requires DomainOnly(r)
    ensures DomainPolar(r, up)
    decreases r
  {
    if r.logicalMode.Some? {
      forall i | 0 <= i < |r.logicalRules| ensures DomainPolar(r.logicalRules[i], up != r.invert) {
        DomainOnlyIsPolar(r.logicalRules[i], up != r.invert);
      }
    } else {
      forall s, i | 0 <= s < |r.ruleSets| && 0 <= i < |r.ruleSets[s].rules|
        ensures DomainPolar(r.ruleSets[s].rules[i], up != r.invert)
      {
        DomainOnlyIsPolar(r.ruleSets[s].rules[i], up != r.invert);
      }
    }
  }

  lemma {:induction false} DomainPolarIsAddressPolar(r: Rule, up: bool)
    requires DomainPolar(r, up)
    ensures AddressPolar(r, up)
    decreases r
  {
    if r.logicalMode.Some? {
      forall i | 0 <= i < |r.logicalRules| ensures AddressPolar(r.logicalRules[i], up != r.invert) {
        DomainPolarIsAddressPolar(r.logicalRules[i], up != r.invert);
      }
    } else {
      forall s, i | 0 <= s < |r.ruleSets| && 0 <= i < |r.ruleSets[s].rules|
        ensures AddressPolar(r.ruleSets[s].rules[i], up != r.invert)
      {
        DomainPolarIsAddressPolar(r.ruleSets[s].rules[i], up != r.invert);
      }
    }
  }

  /** `a` implies `b`, or the other way round. */
  predicate Implies(up: bool, a: bool, b: bool) {
    if up then a ==> b else b ==> a
  }

  /** In direction `up`, the domain test never rejects a domain that some context would match. */
  lemma {:induction false} DomainFieldsApproximate(r: Rule, up: bool, c: Context, domain: string)
    requires DomainPolar(r, up)
    ensures Implies(up, Matches(r, c, Some(domain)), DomainFieldsMatch(r, Some(domain)))
    decreases r
  {
    var inner := up != r.invert;
    if r.logicalMode.Some? {
      forall i | 0 <= i < |r.logicalRules|
        ensures Implies(inner, Matches(r.logicalRules[i], c, Some(domain)),
          DomainFieldsMatch(r.logicalRules[i], Some(domain)))
      {
        DomainFieldsApproximate(r.logicalRules[i], inner, c, domain);
      }
    } else {
      var d := if r.matchSource then c.ForSource() else c;
      forall s, i | 0 <= s < |r.ruleSets| && 0 <= i < |r.ruleSets[s].rules|
        ensures Implies(inner, Matches(r.ruleSets[s].rules[i], d, Some(domain)),
          DomainFieldsMatch(r.ruleSets[s].rules[i], Some(domain)))
      {
        DomainFieldsApproximate(r.ruleSets[s].rules[i], inner, d, domain);
      }
    }
  }

  /** On a domain-only rule the domain test is exact, for every context. */
  lemma DomainOnlyExact(r: Rule, c: Context, domain: string)
    requires DomainOnly(r)
    ensures Matches(r, c, Some(domain)) == DomainFieldsMatch(r, Some(domain))
  {
    hide Matches, DomainFieldsMatch, DomainPolar, DomainOnly;
    DomainOnlyIsPolar(r, true);
    DomainOnlyIsPolar(r, false);
    DomainFieldsApproximate(r, true, c, domain);
    DomainFieldsApproximate(r, false, c, domain);
  }

  /** In direction `up`, learning more addresses never makes the rule stop matching. */
  lemma {:induction false} MatchesMonotone(r: Rule, up: bool, c: Context, c': Context, domain: Option<string>)
    requires AddressPolar(r, up) && Below(c, c')
    ensures Implies(up, Matches(r, c, domain), Matches(r, c', domain))
    decreases r
  {
    var inner := up != r.invert;
    if r.logicalMode.Some? {
      forall i | 0 <= i < |r.logicalRules|
        ensures Implies(inner, Matches(r.logicalRules[i], c, domain), Matches(r.logicalRules[i], c', domain))
      {
        MatchesMonotone(r.logicalRules[i], inner, c, c', domain);
      }
    } else {
      var d, d' := if r.matchSource then c.ForSource() else c, if r.matchSource then c'.ForSource() else c';
      forall s, i | 0 <= s < |r.ruleSets| && 0 <= i < |r.ruleSets[s].rules|
        ensures Implies(inner, Matches(r.ruleSets[s].rules[i], d, domain), Matches(r.ruleSets[s].rules[i], d', domain))
      {
        MatchesMonotone(r.ruleSets[s].rules[i], inner, d, d', domain);
      }
      MatchAddressesMonotone(r.fields, c, c');
    }
  }

  // ---------------------------------------------------------------- lazy lookup agrees with eager lookup

  /** `RouteState::need_resolve` on a non-empty answer; an empty one leaves the addresses unknown. */
  function Resolved(c: Context, answer: seq<IpAddr>): Context {
    if answer == [] then c
    else c.(destinationIps := answer, destinationIp := Some(answer[0]))
  }

  /** The context of the eager router: resolve first, if the lazy router could ever want to. */
  function Eager(c: Context, answer: seq<IpAddr>): Context {
    if NeedsIp(c) then Resolved(c, answer) else c
  }

  /** Lazy lookup with resolve-and-retry, until a rule is selected or none is left. */
  function LookupAndResolve(rules: seq<Rule>, c: Context, from: nat, answer: seq<IpAddr>): Option<nat>
    decreases |rules| - from, if c.NoAddress() then 1 else 0
  {
    match NextActionLazy(rules, c, from)
    case Action(i) => Some(i)
    case NoMatch => None
    case NeedResolve(i) =>
      if answer == [] then LookupAndResolve(rules, c, i + 1, answer)
      else LookupAndResolve(rules, Resolved(c, answer), i, answer)
  }

  /** One rule is treated the same by both routers: taken now, asked about, or rightly skipped. */
  ghost predicate LazySound(r: Rule, c: Context, answer: seq<IpAddr>) {
    Sound(Matches(r, c, Normalized(c)), Matches(r, Resolved(c, answer), Normalized(c)), WantsAddress(r, c))
  }

  /** Without a missing address the lazy lookup is plain first match. */
  lemma LazyWithoutNeed(rules: seq<Rule>, c: Context, from: nat, answer: seq<IpAddr>)
    requires !NeedsIp(c)
    ensures LookupAndResolve(rules, c, from, answer) == NextAction(rules, c, from)
    ensures !NextActionLazy(rules, c, from).NeedResolve?
  {
    ScanPassesMismatches(MatchVector(rules, c), WantsVector(rules, c), from);
  }

  /** Only a lookup without any address asks for one; it then resumes there or just behind. */
  lemma NeedResolveStep(rules: seq<Rule>, c: Context, from: nat, answer: seq<IpAddr>)
    requires NextActionLazy(rules, c, from).NeedResolve?
    ensures
      var i := NextActionLazy(rules, c, from).index;
      && NeedsIp(c)
      && LookupAndResolve(rules, c, from, answer)
         == LookupAndResolve(rules, Resolved(c, answer), if answer == [] then i + 1 else i, answer)
  {
    hide NextActionLazy;
  }

  /** An unanswered query leaves plain first match on the unresolved context. */
  lemma {:induction false} LazyUnanswered(rules: seq<Rule>, c: Context, from: nat)
    ensures LookupAndResolve(rules, c, from, []) == NextAction(rules, c, from)
    decreases |rules| - from
  {
    hide Matches, WantsAddress, Scan, First;
    var stop := NextActionLazy(rules, c, from);
    ScanPassesMismatches(MatchVector(rules, c), WantsVector(rules, c), from);
    if stop.NeedResolve? {
      LazyUnanswered(rules, c, stop.index + 1);
    }
  }

  /** The rules the lazy scan looks at: up to the one it stops at. */
  function Scanned(rules: seq<Rule>, c: Context, from: nat): (n: nat)
    ensures n <= |rules|
  {
    var stop := NextActionLazy(rules, c, from);
    if stop.NoMatch? then |rules| else stop.index + 1
  }

  ghost predicate ScannedSound(rules: seq<Rule>, c: Context, from: nat, answer: seq<IpAddr>) {
    forall j :: from <= j < Scanned(rules, c, from) ==> LazySound(rules[j], c, answer)
  }

  lemma AnsweredAgreesIff(rules: seq<Rule>, c: Context, from: nat, answer: seq<IpAddr>)
    requires NeedsIp(c) && answer != []
    ensures
      LookupAndResolve(rules, c, from, answer) == NextAction(rules, Resolved(c, answer), from)
      <==> ScannedSound(rules, c, from, answer)
  {
    var c' := Resolved(c, answer);
    var now, wants, later := MatchVector(rules, c), WantsVector(rules, c), MatchVector(rules, c');
    ScanAgreesIff(now, wants, later, from);
    var stop := Scan(now, wants, from);
    if stop.NeedResolve? {
      LazyWithoutNeed(rules, c', stop.index, answer);
    }
    assert forall j :: 0 <= j < |rules| ==> LazySound(rules[j], c, answer) == Sound(now[j], later[j], wants[j]);
  }

  /**
   The exact condition, for any rules, inverted or not: both routers select the same rule if and
   only if no answer changes the context or every rule the lazy scan looks at is sound.
   */
  lemma LazyAgreesIff(rules: seq<Rule>, c: Context, from: nat, answer: seq<IpAddr>)
    ensures
      LookupAndResolve(rules, c, from, answer) == NextAction(rules, Eager(c, answer), from)
      <==> (NeedsIp(c) && answer != [] ==> ScannedSound(rules, c, from, answer))
  {
    hide LookupAndResolve, NextAction, ScannedSound;
    if !NeedsIp(c) {
      LazyWithoutNeed(rules, c, from, answer);
    } else if answer == [] {
      LazyUnanswered(rules, c, from);
    } else {
      AnsweredAgreesIff(rules, c, from, answer);
    }
  }

  lemma LazySafeIsSound(r: Rule, c: Context, answer: seq<IpAddr>)
    requires LazySafe(r) && NeedsIp(c)
    ensures LazySound(r, c, answer)
  {
    var c' := Resolved(c, answer);
    var d := Normalized(c).value;
    if !r.requiresDestinationIp {
      AddressIndependent(r, c, c', Some(d));
    } else {
      DomainPolarIsAddressPolar(r, true);
      MatchesMonotone(r, true, c, c', Some(d));
      DomainFieldsApproximate(r, true, c', d);
    }
  }

  /**
   Lazy lookup with resolve-and-retry selects the same first rule as plain first match on a
   context resolved up front, from any cursor and for every resolver answer.
   */
  lemma LazyAgreesWithEager(rules: seq<Rule>, c: Context, from: nat, answer: seq<IpAddr>)
    requires AllLazySafe(rules)
    ensures LookupAndResolve(rules, c, from, answer) == NextAction(rules, Eager(c, answer), from)
  {
    if NeedsIp(c) {
      forall j | 0 <= j < |rules| ensures LazySound(rules[j], c, answer) {
        LazySafeIsSound(rules[j], c, answer);
      }
    }
    LazyAgreesIff(rules, c, from, answer);
  }

  /** The statement for rule lists without any inversion. */
  lemma InversionFreeLazyAgrees(rules: seq<Rule>, c: Context, from: nat, answer: seq<IpAddr>)
    requires forall i :: 0 <= i < |rules| ==> WellCompiled(rules[i]) && InversionFree(rules[i])
    ensures LookupAndResolve(rules, c, from, answer) == NextAction(rules, Eager(c, answer), from)
  {
    forall i | 0 <= i < |rules| ensures LazySafe(rules[i]) {
      InversionFreeIsPolar(rules[i]);
    }
    LazyAgreesWithEager(rules, c, from, answer);
  }

  // ---------------------------------------------------------------- inversion breaks the agreement

  function EmptyFields(): Fields {
    Fields([], [], [], [], [], [], false, [], false, [], [], [], [], [], [], [], None, [],
           [], [], [], [], [], [], [], [], false, false, [], [], map[], map[], [], [], [])
  }

  /** An inverted IPv4 test matches while no address is known, and stops matching once one is. */
  lemma InvertedAddressRuleDisagrees(c: Context)
    requires NeedsIp(c)
    ensures
      var rule := Rule(None, [], EmptyFields().(ipVersions := [4]), [], false, Route(Reject), true, true);
      && WellCompiled(rule)
      && LookupAndResolve([rule], c, 0, [V4(1)]) == Some(0)
      && NextAction([rule], Eager(c, [V4(1)]), 0) == None
  {
    var rule := Rule(None, [], EmptyFields().(ipVersions := [4]), [], false, Route(Reject), true, true);
    var c' := Resolved(c, [V4(1)]);
    assert !c.AnyAddress(ip => AnyVersion([4], ip));
    assert !MatchAddresses(rule.fields, c);
    assert Matches(rule, c, Normalized(c));
    assert MatchVector([rule], c) == [true];
    assert IsVersion([4][0], V4(1));
    assert AnyVersion([4], c'.destinationIps[0]);
    assert MatchAddresses(rule.fields, c');
    assert !Matches(rule, c', Normalized(c'));
    assert MatchVector([rule], c') == [false];
  }

  function PortNot80(): Rule {
    Rule(None, [], EmptyFields().(ports := [(80, 80)]), [], false, Route(Reject), true, false)
  }

  function Version4(): Rule {
    Rule(None, [], EmptyFields().(ipVersions := [4]), [], false, Route(Reject), false, true)
  }

  /** Both of two rules, one of which needs an address. */
  function Both(a: Rule, b: Rule): Rule {
    Rule(Some(And), [a, b], EmptyFields(), [], false, Route(Reject), false, true)
  }

  lemma PortLeaf(c: Context, d: string)
    requires c.connection.destinationPort == Some(443)
    ensures Matches(PortNot80(), c, Some(d)) && !DomainFieldsMatch(PortNot80(), Some(d))
  {
    assert !MatchPorts([(80, 80)], Some(443));
  }

  lemma VersionLeaf(c: Context, d: Option<string>)
    ensures Matches(Version4(), c, d) <==> c.AnyAddress(ip => AnyVersion([4], ip))
  {
  }

  lemma AllMatch(r: Rule, c: Context, d: Option<string>)
    requires r.logicalMode == Some(And) && !r.invert
    ensures Matches(r, c, d) <==> forall i :: 0 <= i < |r.logicalRules| ==> Matches(r.logicalRules[i], c, d)
  {
  }

  lemma AllDomainsMatch(r: Rule, d: Option<string>)
    requires r.logicalMode == Some(And) && !r.invert && DomainFieldsMatch(r, d)
    ensures forall i :: 0 <= i < |r.logicalRules| ==> DomainFieldsMatch(r.logicalRules[i], d)
  {
  }

  lemma BothMatch(a: Rule, b: Rule, c: Context, d: Option<string>)
    ensures Matches(Both(a, b), c, d) <==> Matches(a, c, d) && Matches(b, c, d)
    ensures DomainFieldsMatch(Both(a, b), d) ==> DomainFieldsMatch(a, d)
  {
    hide Matches, DomainFieldsMatch;
    var rule := Both(a, b);
    assert rule.logicalRules[0] == a && rule.logicalRules[1] == b;
    AllMatch(rule, c, d);
    if DomainFieldsMatch(rule, d) { AllDomainsMatch(rule, d); }
  }

  /** A list of one rule. */
  lemma OneRule(r: Rule, c: Context, answer: seq<IpAddr>)
    ensures NextAction([r], c, 0) == if Matches(r, c, Normalized(c)) then Some(0) else None
    ensures !Matches(r, c, Normalized(c)) && !WantsAddress(r, c) ==> LookupAndResolve([r], c, 0, answer) == None
  {
    hide Matches, WantsAddress;
    assert MatchVector([r], c) == [Matches(r, c, Normalized(c))];
    assert WantsVector([r], c) == [WantsAddress(r, c)];
  }

  /**
   An inverted port test beside an address test: the domain test inverts "no domain fields" to
   false, so the lazy lookup never asks for the address that would make the rule match. No
   address test is inverted here.
   */
  lemma InvertedPortRuleDisagrees(c: Context)
    requires NeedsIp(c) && c.connection.destinationPort == Some(443)
    ensures
      var rule := Both(PortNot80(), Version4());
      && LookupAndResolve([rule], c, 0, [V4(1)]) == None
      && NextAction([rule], Eager(c, [V4(1)]), 0) == Some(0)
  {
    hide Matches, DomainFieldsMatch, Both, LookupAndResolve, NextAction;
    var rule, c', d := Both(PortNot80(), Version4()), Resolved(c, [V4(1)]), Normalized(c);
    PortLeaf(c, d.value);
    PortLeaf(c', d.value);
    VersionLeaf(c, d);
    VersionLeaf(c', d);
    BothMatch(PortNot80(), Version4(), c, d);
    BothMatch(PortNot80(), Version4(), c', d);
    assert IsVersion([4][0], c'.destinationIps[0]);
    assert AnyVersion([4], c'.destinationIps[0]);
    OneRule(rule, c, [V4(1)]);
    OneRule(rule, c', [V4(1)]);
  }

  lemma BothCompiled(a: Rule, b: Rule)
    requires WellCompiled(a) && WellCompiled(b) && b.requiresDestinationIp && AddressPolar(a, true)
    requires AddressPolar(b, true)
    ensures WellCompiled(Both(a, b)) && AddressPolar(Both(a, b), true)
  {
    var rule := Both(a, b);
    assert rule.logicalRules[0] == a && rule.logicalRules[1] == b;
  }

  /** That rule is as the compiler leaves it. */
  lemma InvertedPortRuleCompiled()
    ensures WellCompiled(Both(PortNot80(), Version4())) && AddressPolar(Both(PortNot80(), Version4()), true)
  {
    hide WellCompiled, AddressPolar, Both;
    LeavesCompiled();
    BothCompiled(PortNot80(), Version4());
  }

  lemma LeavesCompiled()
    ensures WellCompiled(PortNot80()) && AddressPolar(PortNot80(), true)
    ensures WellCompiled(Version4()) && AddressPolar(Version4(), true)
  {
  }

  // ---------------------------------------------------------------- asking only where it matters

  /** The rule or one nested in it tests addresses. */
  ghost predicate TestsAddress(r: Rule)
    decreases r
  {
    || !NoAddressTests(r.fields)
    || (exists i :: 0 <= i < |r.logicalRules| && TestsAddress(r.logicalRules[i]))
    || (exists s, i :: 0 <= s < |r.ruleSets| && 0 <= i < |r.ruleSets[s].rules| && TestsAddress(r.ruleSets[s].rules[i]))
  }

  /** The flag of a compiled rule says whether its tree tests addresses. */
  lemma {:induction false} FlagExact(r: Rule)
    requires WellCompiled(r)
    ensures r.requiresDestinationIp <==> TestsAddress(r)
    decreases r
  {
    forall i | 0 <= i < |r.logicalRules|
      ensures r.logicalRules[i].requiresDestinationIp <==> TestsAddress(r.logicalRules[i])
    {
      FlagExact(r.logicalRules[i]);
    }
    forall s, i | 0 <= s < |r.ruleSets| && 0 <= i < |r.ruleSets[s].rules|
      ensures r.ruleSets[s].rules[i].requiresDestinationIp <==> TestsAddress(r.ruleSets[s].rules[i])
    {
      FlagExact(r.ruleSets[s].rules[i]);
    }
  }

  /** A lookup asks for addresses only without any, and only at a rule that tests them and does not match without. */
  lemma AsksOnlyIfTested(rules: seq<Rule>, c: Context, from: nat)
    requires AllWellCompiled(rules) && NextActionLazy(rules, c, from).NeedResolve?
    ensures
      var i := NextActionLazy(rules, c, from).index;
      c.NoAddress() && TestsAddress(rules[i]) && !Matches(rules[i], c, Normalized(c))
  {
    hide Matches, TestsAddress, WellCompiled, DomainFieldsMatch;
    var i := NextActionLazy(rules, c, from).index;
    assert WellCompiled(rules[i]);
    FlagExact(rules[i]);
    assert WantsVector(rules, c)[i] && !MatchVector(rules, c)[i];
  }
}
