/**
 Where the policy rules of a TUN plan (src/tun_route_linux.rs) send a packet. The kernel walks the
 rules of a family by priority; a rule that selects the packet looks up its table, and the walk ends
 if that table has a route. The plan sends every packet where the configuration says.
 */
module TunVerdict {
  import opened Basics
  import opened TunPlan

  datatype Packet = Packet(destination: IpAddr, source: IpAddr, uid: nat, inbound: string, mark: nat)

  /** What the main table has for the destination. */
  datatype MainRoute = NoRoute | DefaultRoute | SpecificRoute

  /** Where the rules of the plan send the packet; `Onward` leaves it to the system's own rules. */
  datatype Verdict = Via(table: Table) | Refused | Onward

  function Width(ip: IpAddr): nat { if ip.V4? then 32 else 128 }

  /** The network the prefix lies in holds the address. */
  predicate Covers(p: Prefix, ip: IpAddr) {
    && p.address.V6? == ip.V6?
    && var host := Pow2(if p.length <= Width(ip) then Width(ip) - p.length else 0);
       ip.bits / host == p.address.bits / host
  }

  // ---------------------------------------------------------------- what the kernel does with a plan

  predicate Selects(s: Selector, x: Packet) {
    match s
    case To(prefix, _) => Covers(prefix, x.destination)
    case Uids(first, last, _) => first <= x.uid <= last
    case Inbound(interface, _) => x.inbound == interface
    case LocalFrom(prefix, _) => x.inbound == "lo" && Covers(prefix, x.source)
    case NotLoopback(_) => x.inbound != "lo"
    case MarkGoto(mark, _) => x.mark == mark
    case MarkLookup(mark, _) => x.mark == mark
    case _ => true
  }

  datatype Effect = Ends(verdict: Verdict) | Passes | Goto(priority: nat)

  function Lookup(table: Table, main: MainRoute, tun: bool): Effect {
    if (if table == Main then main != NoRoute else tun) then Ends(Via(table)) else Passes
  }

  /** What a rule does with the packet when the tables have these routes for it. */
  function EffectOf(s: Selector, x: Packet, main: MainRoute, tun: bool): Effect {
    if !Selects(s, x) then Passes
    else match s
      case SuppressDefault => if main == SpecificRoute then Ends(Via(Main)) else Passes
      case MarkGoto(_, target) => Goto(target)
      case Nop => Passes
      case Unreachable => Ends(Refused)
      case To(_, table) => Lookup(table, main, tun)
      case Uids(_, _, table) => Lookup(table, main, tun)
      case Inbound(_, table) => Lookup(table, main, tun)
      case LocalFrom(_, table) => Lookup(table, main, tun)
      case NotLoopback(table) => Lookup(table, main, tun)
      case MarkLookup(_, table) => Lookup(table, main, tun)
  }

  /** The TUN table of the plan has a route for the destination. */
  ghost predicate Routed(plan: seq<Action>, v6: bool, destination: IpAddr) {
    exists p :: Route(v6, p) in plan && Covers(p, destination)
  }

  /** The walk from priority `n` on, past the last rule at `end`. */
  ghost function Walk(plan: seq<Action>, v6: bool, x: Packet, main: MainRoute, n: nat, end: nat): Verdict
    decreases end - n
  {
    if n >= end then Onward
    else if exists s :: Rule(v6, n, s) in plan then
      var s :| Rule(v6, n, s) in plan;
      match EffectOf(s, x, main, Routed(plan, v6, x.destination))
      case Ends(verdict) => verdict
      case Passes => Walk(plan, v6, x, main, n + 1, end)
      case Goto(target) => Walk(plan, v6, x, main, Max(target, n + 1), end)
    else Walk(plan, v6, x, main, n + 1, end)
  }

  // ---------------------------------------------------------------- what the configuration asks for

  ghost predicate InRanges(ranges: seq<(nat, nat)>, uid: nat) {
    exists i :: 0 <= i < |ranges| && ranges[i].0 <= uid <= ranges[i].1
  }

  ghost predicate InPrefixes(prefixes: seq<Prefix>, ip: IpAddr) {
    exists i :: 0 <= i < |prefixes| && Covers(prefixes[i], ip)
  }

  ghost predicate Excluded(c: Config, x: Packet) {
    || InPrefixes(c.excluded, x.destination)
    || x.uid in c.excludeUids || InRanges(c.excludeRanges, x.uid)
    || x.inbound in c.excludeInterfaces
  }

  /** The address of no host. */
  function Nowhere(ip: IpAddr): IpAddr { if ip.V6? then V6(0) else V4(0) }

  /** Without listed users, local traffic is captured by its source address; forwarded traffic by interface. */
  ghost predicate Captured(c: Config, x: Packet) {
    || (if c.includeUids == [] && c.includeRanges == []
        then x.inbound == "lo" && (InPrefixes(c.addresses, x.source) || x.source == Nowhere(x.source))
        else x.uid in c.includeUids || InRanges(c.includeRanges, x.uid))
    || (if c.includeInterfaces == [] then x.inbound != "lo" else x.inbound in c.includeInterfaces)
  }

  /** The destination is to go through the device if captured. */
  ghost predicate Wanted(c: Config, destination: IpAddr) {
    || InPrefixes(c.routes, destination)
    || (!c.includeActive && forall i :: 0 <= i < |c.routes| ==> c.routes[i].address.V6? != destination.V6?)
  }

  ghost function Intended(c: Config, x: Packet, main: MainRoute): Verdict {
    if !HasFamily(c, x.destination.V6?) then (if c.strictRoute then Refused else Onward)
    else if c.autoRedirect then
      if x.mark == c.inputMark != c.outputMark && Wanted(c, x.destination) then Via(Tun) else Onward
    else if main == SpecificRoute || (main == DefaultRoute && Excluded(c, x)) then Via(Main)
    else if Captured(c, x) && Wanted(c, x.destination) then Via(Tun)
    else Onward
  }

  // ---------------------------------------------------------------- lists of rules

  /** The walk over a list of rules, none of which jumps. */
  function WalkList(rules: seq<Selector>, x: Packet, main: MainRoute, tun: bool): Verdict {
    if rules == [] then Onward
    else if EffectOf(rules[0], x, main, tun).Ends? then EffectOf(rules[0], x, main, tun).verdict
    else WalkList(rules[1..], x, main, tun)
  }

  ghost predicate SomeSelects(rules: seq<Selector>, x: Packet) {
    exists i :: 0 <= i < |rules| && Selects(rules[i], x)
  }

  /** Every rule of the list looks up the table. */
  ghost predicate AllLookUp(rules: seq<Selector>, table: Table) {
    forall i :: 0 <= i < |rules| ==>
      (rules[i].To? || rules[i].Uids? || rules[i].Inbound? || rules[i].LocalFrom? || rules[i].NotLoopback?)
      && rules[i].table == table
  }

  lemma {:induction false} LookUpsThen(
    rules: seq<Selector>, rest: seq<Selector>, table: Table, x: Packet, main: MainRoute, tun: bool)
    requires AllLookUp(rules, table)
    ensures WalkList(rules + rest, x, main, tun) ==
            if SomeSelects(rules, x) && Lookup(table, main, tun).Ends? then Via(table) else WalkList(rest, x, main, tun)
    decreases |rules|
  {
    hide Selects;
    if rules == [] {
      assert rules + rest == rest;
    } else {
      LookUpsThen(rules[1..], rest, table, x, main, tun);
      assert (rules + rest)[1..] == rules[1..] + rest;
      assert SomeSelects(rules, x) <==> Selects(rules[0], x) || SomeSelects(rules[1..], x) by {
        assert forall i :: 1 <= i < |rules| ==> rules[i] == rules[1..][i - 1];
      }
    }
  }

  lemma SomeSelectsConcat(a: seq<Selector>, b: seq<Selector>, x: Packet)
    ensures SomeSelects(a + b, x) <==> SomeSelects(a, x) || SomeSelects(b, x)
  {
    hide Selects;
    if i :| 0 <= i < |a| && Selects(a[i], x) { assert Selects((a + b)[i], x); }
    if i :| 0 <= i < |b| && Selects(b[i], x) { assert Selects((a + b)[|a| + i], x); }
  }

  lemma {:induction false} FamilyHolds(prefixes: seq<Prefix>, v6: bool, p: Prefix)
    ensures p in Family(prefixes, v6) <==> p in prefixes && InFamily(p, v6)
    decreases |prefixes|
  {
    if prefixes != [] { FamilyHolds(prefixes[1..], v6, p); }
  }

  lemma FamilyCovers(prefixes: seq<Prefix>, ip: IpAddr)
    ensures InPrefixes(Family(prefixes, ip.V6?), ip) <==> InPrefixes(prefixes, ip)
  {
    hide Family;
    var own := Family(prefixes, ip.V6?);
    if i :| 0 <= i < |prefixes| && Covers(prefixes[i], ip) {
      FamilyHolds(prefixes, ip.V6?, prefixes[i]);
      var j :| 0 <= j < |own| && own[j] == prefixes[i];
      assert Covers(own[j], ip);
    }
    if j :| 0 <= j < |own| && Covers(own[j], ip) {
      FamilyHolds(prefixes, ip.V6?, own[j]);
      var i :| 0 <= i < |prefixes| && prefixes[i] == own[j];
      assert Covers(prefixes[i], ip);
    }
  }

  lemma ToSelects(prefixes: seq<Prefix>, x: Packet)
    ensures SomeSelects(ToRules(prefixes), x) <==> InPrefixes(prefixes, x.destination)
    ensures AllLookUp(ToRules(prefixes), Main)
  {
    hide Covers;
    var rules := ToRules(prefixes);
    assert forall i :: 0 <= i < |prefixes| ==> rules[i] == To(prefixes[i], Main);
    if i :| 0 <= i < |prefixes| && Covers(prefixes[i], x.destination) { assert Selects(rules[i], x); }
  }

  lemma FromSelects(prefixes: seq<Prefix>, x: Packet)
    ensures SomeSelects(FromRules(prefixes), x) <==> x.inbound == "lo" && InPrefixes(prefixes, x.source)
    ensures AllLookUp(FromRules(prefixes), Tun)
  {
    hide Covers;
    var rules := FromRules(prefixes);
    assert forall i :: 0 <= i < |prefixes| ==> rules[i] == LocalFrom(prefixes[i], Tun);
    if i :| 0 <= i < |prefixes| && x.inbound == "lo" && Covers(prefixes[i], x.source) { assert Selects(rules[i], x); }
  }

  lemma UidSelects(uids: seq<nat>, ranges: seq<(nat, nat)>, table: Table, x: Packet)
    ensures SomeSelects(UidRules(uids, table), x) <==> x.uid in uids
    ensures SomeSelects(RangeRules(ranges, table), x) <==> InRanges(ranges, x.uid)
    ensures AllLookUp(UidRules(uids, table), table) && AllLookUp(RangeRules(ranges, table), table)
  {
    var own, wide := UidRules(uids, table), RangeRules(ranges, table);
    assert forall i :: 0 <= i < |uids| ==> own[i] == Uids(uids[i], uids[i], table);
    assert forall i :: 0 <= i < |ranges| ==> wide[i] == Uids(ranges[i].0, ranges[i].1, table);
    if i :| 0 <= i < |uids| && uids[i] == x.uid { assert Selects(own[i], x); }
    if i :| 0 <= i < |ranges| && ranges[i].0 <= x.uid <= ranges[i].1 { assert Selects(wide[i], x); }
  }

  lemma InboundSelects(names: seq<string>, table: Table, x: Packet)
    ensures SomeSelects(InboundRules(names, table), x) <==> x.inbound in names
    ensures AllLookUp(InboundRules(names, table), table)
  {
    var rules := InboundRules(names, table);
    assert forall i :: 0 <= i < |names| ==> rules[i] == Inbound(names[i], table);
    if i :| 0 <= i < |names| && names[i] == x.inbound { assert Selects(rules[i], x); }
  }

  lemma ExclusionsSelect(c: Config, x: Packet)
    ensures SomeSelects(Exclusions(c, x.destination.V6?), x) <==> Excluded(c, x)
    ensures AllLookUp(Exclusions(c, x.destination.V6?), Main)
  {
    hide SomeSelects, InPrefixes, InRanges, ToRules, UidRules, RangeRules, InboundRules, Family;
    var own := Family(c.excluded, x.destination.V6?);
    var a, b, r, n := ToRules(own), UidRules(c.excludeUids, Main), RangeRules(c.excludeRanges, Main),
                      InboundRules(c.excludeInterfaces, Main);
    FamilyCovers(c.excluded, x.destination);
    ToSelects(own, x);
    UidSelects(c.excludeUids, c.excludeRanges, Main, x);
    InboundSelects(c.excludeInterfaces, Main, x);
    SomeSelectsConcat(a, b, x);
    SomeSelectsConcat(a + b, r, x);
    SomeSelectsConcat(a + b + r, n, x);
  }

  lemma NowhereCovered(ip: IpAddr)
    ensures Covers(Unspecified(ip.V6?), ip) <==> ip == Nowhere(ip)
  {
    assert Pow2(0) == 1;
  }

  lemma LocalSelects(c: Config, x: Packet)
    ensures
      SomeSelects(LocalCaptures(c, x.source.V6?), x) <==>
      if c.includeUids == [] && c.includeRanges == []
      then x.inbound == "lo" && (InPrefixes(c.addresses, x.source) || x.source == Nowhere(x.source))
      else x.uid in c.includeUids || InRanges(c.includeRanges, x.uid)
    ensures AllLookUp(LocalCaptures(c, x.source.V6?), Tun)
  {
    hide SomeSelects, InPrefixes, InRanges, FromRules, UidRules, RangeRules, Family, Covers;
    var v6 := x.source.V6?;
    if c.includeUids == [] && c.includeRanges == [] {
      var own := Family(c.addresses, v6);
      FamilyCovers(c.addresses, x.source);
      FromSelects(own, x);
      NowhereCovered(x.source);
      OneSelects(LocalFrom(Unspecified(v6), Tun), x);
      SomeSelectsConcat(FromRules(own), [LocalFrom(Unspecified(v6), Tun)], x);
    } else {
      UidSelects(c.includeUids, c.includeRanges, Tun, x);
      SomeSelectsConcat(UidRules(c.includeUids, Tun), RangeRules(c.includeRanges, Tun), x);
    }
  }

  lemma OneSelects(s: Selector, x: Packet)
    ensures SomeSelects([s], x) <==> Selects(s, x)
  {
    if Selects(s, x) { assert Selects([s][0], x); }
  }

  lemma ForwardSelects(c: Config, x: Packet)
    ensures
      SomeSelects(ForwardCaptures(c), x) <==>
      if c.includeInterfaces == [] then x.inbound != "lo" else x.inbound in c.includeInterfaces
    ensures AllLookUp(ForwardCaptures(c), Tun)
  {
    hide SomeSelects, InboundRules;
    InboundSelects(c.includeInterfaces, Tun, x);
    OneSelects(NotLoopback(Tun), x);
  }

  /** The rules outside auto-redirect send a packet where the configuration says. */
  lemma ListVerdict(c: Config, x: Packet, main: MainRoute, tun: bool)
    requires x.source.V6? == x.destination.V6?
    ensures
      WalkList(Selectors(c, x.destination.V6?), x, main, tun) ==
      if main == SpecificRoute || (main == DefaultRoute && Excluded(c, x)) then Via(Main)
      else if Captured(c, x) && tun then Via(Tun)
      else Onward
  {
    hide SomeSelects, Exclusions, LocalCaptures, ForwardCaptures, AllLookUp, Excluded, InPrefixes, InRanges;
    var v6 := x.destination.V6?;
    var a, b, d := Exclusions(c, v6), LocalCaptures(c, v6), ForwardCaptures(c);
    ExclusionsSelect(c, x);
    LocalSelects(c, x);
    ForwardSelects(c, x);
    assert Selectors(c, v6) == a + ([SuppressDefault] + (b + (d + [])));
    LookUpsThen(a, [SuppressDefault] + (b + (d + [])), Main, x, main, tun);
    assert ([SuppressDefault] + (b + (d + [])))[1..] == b + (d + []);
    LookUpsThen(b, d + [], Tun, x, main, tun);
    LookUpsThen(d, [], Tun, x, main, tun);
  }

  // ---------------------------------------------------------------- the walk over the plan

  predicate Valid(ip: IpAddr) { 0 <= ip.bits < Pow2(Width(ip)) }

  lemma DefaultCovers(ip: IpAddr)
    requires Valid(ip)
    ensures Covers(Default(ip.V6?), ip)
  {
    hide Pow2;
    NoQuotient(ip.bits, Pow2(Width(ip)));
    NoQuotient(0, Pow2(Width(ip)));
  }

  lemma NoQuotient(b: nat, h: nat)
    requires b < h
    ensures b / h == 0
  {
  }

  lemma RouteInFamily(c: Config, v6: bool, w6: bool, p: Prefix)
    ensures Route(v6, p) in FamilyPlan(c, w6) <==> v6 == w6 && p in RoutedPrefixes(c, v6)
  {
    hide RoutedPrefixes, FamilyRules;
    var routes, all := Routes(c, w6), RoutedPrefixes(c, w6);
    assert |routes| == |all| && forall i :: 0 <= i < |all| ==> routes[i] == Route(w6, all[i]);
    if v6 == w6 && p in all {
      var i :| 0 <= i < |all| && all[i] == p;
      assert routes[i] == Route(v6, p);
    }
  }

  lemma RouteInPlan(c: Config, v6: bool, p: Prefix)
    requires HasFamily(c, v6)
    ensures Route(v6, p) in Plan(c) <==> p in RoutedPrefixes(c, v6)
  {
    hide FamilyPlan, RoutedPrefixes, HasFamily;
    RouteInFamily(c, v6, false, p);
    RouteInFamily(c, v6, true, p);
  }

  lemma NoneOfFamily(c: Config, v6: bool)
    ensures Family(c.routes, v6) == [] <==> forall i :: 0 <= i < |c.routes| ==> c.routes[i].address.V6? != v6
  {
    hide Family;
    var own := Family(c.routes, v6);
    forall p ensures p in own <==> p in c.routes && InFamily(p, v6) { FamilyHolds(c.routes, v6, p); }
    if own != [] { assert own[0] in own; }
    if own == [] {
      forall i | 0 <= i < |c.routes| ensures c.routes[i].address.V6? != v6 {
        assert c.routes[i] !in own;
      }
    }
  }

  lemma RoutedIsWanted(c: Config, destination: IpAddr)
    requires HasFamily(c, destination.V6?) && Valid(destination)
    ensures Routed(Plan(c), destination.V6?, destination) <==> Wanted(c, destination)
  {
    hide Plan, Family, HasFamily, Covers;
    var v6 := destination.V6?;
    var all := RoutedPrefixes(c, v6);
    forall p ensures Route(v6, p) in Plan(c) <==> p in all { RouteInPlan(c, v6, p); }
    NoneOfFamily(c, v6);
    FamilyCovers(c.routes, destination);
    DefaultCovers(destination);
    assert Routed(Plan(c), v6, destination) <==> InPrefixes(all, destination) by {
      if i :| 0 <= i < |all| && Covers(all[i], destination) { assert Route(v6, all[i]) in Plan(c); }
    }
    if all == [Default(v6)] { assert Covers(all[0], destination); }
  }

  lemma RuleInFamily(c: Config, v6: bool, n: nat, s: Selector)
    ensures Rule(v6, n, s) in FamilyPlan(c, v6) <==>
            c.ruleIndex <= n < c.ruleIndex + |FamilyRules(c, v6)| && s == FamilyRules(c, v6)[n - c.ruleIndex]
  {
    hide FamilyRules, Routes, Numbered, FamilyPlan;
    if Rule(v6, n, s) in FamilyPlan(c, v6) {
      FamilyPlanRule(c, v6, Rule(v6, n, s));
    }
    if c.ruleIndex <= n < c.ruleIndex + |FamilyRules(c, v6)| && s == FamilyRules(c, v6)[n - c.ruleIndex] {
      NumberedHolds(c, v6, n - c.ruleIndex);
    }
  }

  lemma NumberedHolds(c: Config, v6: bool, i: nat)
    requires i < |FamilyRules(c, v6)|
    ensures Rule(v6, c.ruleIndex + i, FamilyRules(c, v6)[i]) in FamilyPlan(c, v6)
  {
    hide FamilyRules, Routes;
    assert Numbered(v6, c.ruleIndex, FamilyRules(c, v6))[i] == Rule(v6, c.ruleIndex + i, FamilyRules(c, v6)[i]);
  }

  lemma RuleInPlan(c: Config, v6: bool, n: nat, s: Selector)
    ensures
      Rule(v6, n, s) in Plan(c) <==>
      if HasFamily(c, v6)
      then c.ruleIndex <= n < c.ruleIndex + |FamilyRules(c, v6)| && s == FamilyRules(c, v6)[n - c.ruleIndex]
      else c.strictRoute && n == c.ruleIndex && s == Unreachable
  {
    hide FamilyPlan, FamilyRules, HasFamily;
    RuleInFamily(c, v6, n, s);
    if Rule(v6, n, s) in Plan(c) { PlanRule(c, Rule(v6, n, s)); }
    if HasFamily(c, v6) {
      assert Rule(v6, n, s) in FamilyPlan(c, v6) ==> Rule(v6, n, s) in Plan(c);
    } else {
      assert Strict(c, v6) == if c.strictRoute then [Rule(v6, c.ruleIndex, Unreachable)] else [];
      assert c.strictRoute ==> Strict(c, v6)[0] in Strict(c, v6);
    }
  }

  /** Priorities without a rule are passed over. */
  lemma {:induction false} WalkOver(plan: seq<Action>, v6: bool, x: Packet, main: MainRoute, n: nat, m: nat, end: nat)
    requires n <= m <= end && forall k, s :: n <= k < m ==> Rule(v6, k, s) !in plan
    ensures Walk(plan, v6, x, main, n, end) == Walk(plan, v6, x, main, m, end)
    decreases m - n
  {
    hide EffectOf, Routed;
    if n < m { WalkOver(plan, v6, x, main, n + 1, m, end); }
  }

  lemma WalkStep(plan: seq<Action>, v6: bool, x: Packet, main: MainRoute, n: nat, end: nat, s: Selector)
    requires n < end && forall s' :: Rule(v6, n, s') in plan <==> s' == s
    ensures
      Walk(plan, v6, x, main, n, end) ==
      match EffectOf(s, x, main, Routed(plan, v6, x.destination))
      case Ends(verdict) => verdict
      case Passes => Walk(plan, v6, x, main, n + 1, end)
      case Goto(target) => Walk(plan, v6, x, main, Max(target, n + 1), end)
  {
    hide EffectOf, Routed;
    assert Rule(v6, n, s) in plan;
  }

  /** All rules of the plan are below `end`. */
  ghost predicate Below(plan: seq<Action>, end: nat) {
    forall a :: a in plan && a.Rule? ==> a.priority < end
  }

  lemma BelowEnd(c: Config, v6: bool, end: nat)
    requires HasFamily(c, v6) && Below(Plan(c), end)
    ensures FamilyRules(c, v6) != [] && c.ruleIndex + |FamilyRules(c, v6)| <= end
  {
    hide Plan, HasFamily, Exclusions, LocalCaptures;
    var rules := FamilyRules(c, v6);
    RuleInPlan(c, v6, c.ruleIndex + |rules| - 1, rules[|rules| - 1]);
  }

  lemma RuleThere(c: Config, v6: bool, n: nat)
    requires HasFamily(c, v6) && c.ruleIndex <= n < c.ruleIndex + |FamilyRules(c, v6)|
    ensures forall s :: Rule(v6, n, s) in Plan(c) <==> s == FamilyRules(c, v6)[n - c.ruleIndex]
  {
    hide Plan, HasFamily, FamilyRules;
    forall s ensures Rule(v6, n, s) in Plan(c) <==> s == FamilyRules(c, v6)[n - c.ruleIndex] {
      RuleInPlan(c, v6, n, s);
    }
  }

  lemma NoRuleThere(c: Config, v6: bool, n: nat)
    requires HasFamily(c, v6) && !(c.ruleIndex <= n < c.ruleIndex + |FamilyRules(c, v6)|)
    ensures forall s :: Rule(v6, n, s) !in Plan(c)
  {
    hide Plan, HasFamily, FamilyRules;
    forall s ensures Rule(v6, n, s) !in Plan(c) { RuleInPlan(c, v6, n, s); }
  }

  ghost predicate NoJumps(rules: seq<Selector>) {
    forall i :: 0 <= i < |rules| ==> !rules[i].MarkGoto?
  }

  lemma {:induction false} WalkRules(c: Config, v6: bool, x: Packet, main: MainRoute, k: nat, end: nat)
    requires HasFamily(c, v6) && Below(Plan(c), end) && k <= |FamilyRules(c, v6)| && NoJumps(FamilyRules(c, v6))
    ensures Walk(Plan(c), v6, x, main, c.ruleIndex + k, end) ==
            WalkList(FamilyRules(c, v6)[k..], x, main, Routed(Plan(c), v6, x.destination))
    decreases |FamilyRules(c, v6)| - k
  {
    hide Plan, HasFamily, FamilyRules, Routed, Selects, Below;
    var rules, n := FamilyRules(c, v6), c.ruleIndex + k;
    BelowEnd(c, v6, end);
    if k == |rules| {
      forall m: nat, s | n <= m < end ensures Rule(v6, m, s) !in Plan(c) { NoRuleThere(c, v6, m); }
      WalkOver(Plan(c), v6, x, main, n, end, end);
    } else {
      RuleThere(c, v6, n);
      WalkStep(Plan(c), v6, x, main, n, end, rules[k]);
      WalkRules(c, v6, x, main, k + 1, end);
      assert rules[k..][0] == rules[k] && rules[k..][1..] == rules[k + 1..];
    }
  }

  lemma SelectorsDoNotJump(c: Config, v6: bool)
    ensures NoJumps(Selectors(c, v6))
  {
    hide Exclusions, LocalCaptures, ForwardCaptures;
    ExclusionsExclude(c, v6);
    CapturesCapture(c, v6);
  }

  lemma WalkToRules(c: Config, v6: bool, x: Packet, main: MainRoute, end: nat)
    requires HasFamily(c, v6) && Below(Plan(c), end)
    ensures Walk(Plan(c), v6, x, main, 0, end) == Walk(Plan(c), v6, x, main, c.ruleIndex, end)
  {
    hide Plan, HasFamily, FamilyRules, Below, Walk;
    BelowEnd(c, v6, end);
    forall m: nat, s | m < c.ruleIndex ensures Rule(v6, m, s) !in Plan(c) { NoRuleThere(c, v6, m); }
    WalkOver(Plan(c), v6, x, main, 0, c.ruleIndex, end);
  }

  lemma RedirectWalk(c: Config, v6: bool, x: Packet, main: MainRoute, end: nat)
    requires HasFamily(c, v6) && Below(Plan(c), end) && c.autoRedirect
    ensures Walk(Plan(c), v6, x, main, c.ruleIndex, end) ==
            if x.mark == c.inputMark != c.outputMark && Routed(Plan(c), v6, x.destination) then Via(Tun) else Onward
  {
    hide Plan, HasFamily, Routed, Below;
    var n := c.ruleIndex;
    assert |FamilyRules(c, v6)| == 3;
    BelowEnd(c, v6, end);
    RuleThere(c, v6, n);
    RuleThere(c, v6, n + 1);
    RuleThere(c, v6, n + 2);
    forall m: nat, s | n + 3 <= m < end ensures Rule(v6, m, s) !in Plan(c) { NoRuleThere(c, v6, m); }
    WalkOver(Plan(c), v6, x, main, n + 3, end, end);
    WalkStep(Plan(c), v6, x, main, n + 2, end, Nop);
    WalkStep(Plan(c), v6, x, main, n + 1, end, MarkLookup(c.inputMark, Tun));
    WalkStep(Plan(c), v6, x, main, n, end, MarkGoto(c.outputMark, n + 2));
  }

  lemma AbsentWalk(c: Config, v6: bool, x: Packet, main: MainRoute, end: nat)
    requires !HasFamily(c, v6) && Below(Plan(c), end)
    ensures Walk(Plan(c), v6, x, main, 0, end) == if c.strictRoute then Refused else Onward
  {
    hide Plan, HasFamily, Routed;
    forall m: nat, s
      ensures Rule(v6, m, s) in Plan(c) <==> c.strictRoute && m == c.ruleIndex && s == Unreachable
    {
      RuleInPlan(c, v6, m, s);
    }
    if c.strictRoute {
      assert Rule(v6, c.ruleIndex, Unreachable) in Plan(c);
      WalkOver(Plan(c), v6, x, main, 0, c.ruleIndex, end);
    } else {
      WalkOver(Plan(c), v6, x, main, 0, end, end);
    }
  }

  /** Every packet goes where the configuration says, for every state of the main table. */
  lemma PlanVerdict(c: Config, x: Packet, main: MainRoute, end: nat)
    requires x.source.V6? == x.destination.V6? && Valid(x.destination) && Below(Plan(c), end)
    ensures Walk(Plan(c), x.destination.V6?, x, main, 0, end) == Intended(c, x, main)
  {
    hide Plan, HasFamily, Walk, WalkList, Routed, Wanted, Excluded, Captured, Selectors, Below;
    var v6 := x.destination.V6?;
    if !HasFamily(c, v6) {
      AbsentWalk(c, v6, x, main, end);
    } else {
      RoutedIsWanted(c, x.destination);
      WalkToRules(c, v6, x, main, end);
      if c.autoRedirect {
        RedirectWalk(c, v6, x, main, end);
      } else {
        SelectorsDoNotJump(c, v6);
        WalkRules(c, v6, x, main, 0, end);
        assert FamilyRules(c, v6)[0..] == Selectors(c, v6);
        ListVerdict(c, x, main, Wanted(c, x.destination));
      }
    }
  }
}
