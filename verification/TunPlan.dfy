/**
 The route and policy-rule plan of a TUN device (`build_actions`, src/tun_route_linux.rs). Rules
 are kept as values; how they are spelled as arguments of `ip` is not modelled.
 */
module TunPlan {
  import opened Basics

  datatype Prefix = Prefix(address: IpAddr, length: nat)

  datatype Table = Main | Tun

  /** What a rule selects and where it sends it. `LocalFrom` selects the network its prefix lies in. */
  datatype Selector =
    | To(prefix: Prefix, table: Table)
    | Uids(first: nat, last: nat, table: Table)
    | Inbound(interface: string, table: Table)
    | SuppressDefault
    | LocalFrom(prefix: Prefix, table: Table)
    | NotLoopback(table: Table)
    | MarkGoto(mark: nat, target: nat)
    | MarkLookup(mark: nat, table: Table)
    | Nop
    | Unreachable

  datatype Action =
    | Route(v6: bool, prefix: Prefix)
    | Rule(v6: bool, priority: nat, selector: Selector)

  datatype Config = Config(
    addresses: seq<Prefix>, autoRedirect: bool, strictRoute: bool,
    routes: seq<Prefix>, excluded: seq<Prefix>, includeActive: bool,
    includeInterfaces: seq<string>, excludeInterfaces: seq<string>,
    includeUids: seq<nat>, excludeUids: seq<nat>,
    includeRanges: seq<(nat, nat)>, excludeRanges: seq<(nat, nat)>,
    ruleIndex: nat, inputMark: nat, outputMark: nat)

  /** Priorities from here on belong to the system's own rules. */
  const LIMIT := 32766

  predicate InFamily(p: Prefix, v6: bool) { p.address.V6? == v6 }

  function Family(prefixes: seq<Prefix>, v6: bool): (r: seq<Prefix>)
    ensures forall i :: 0 <= i < |r| ==> InFamily(r[i], v6)
  {
    if prefixes == [] then []
    else (if InFamily(prefixes[0], v6) then [prefixes[0]] else []) + Family(prefixes[1..], v6)
  }

  function Default(v6: bool): Prefix { Prefix(if v6 then V6(0) else V4(0), 0) }

  function Unspecified(v6: bool): Prefix { if v6 then Prefix(V6(0), 128) else Prefix(V4(0), 32) }

  // ---------------------------------------------------------------- what the rules are, in order

  function Each<T>(xs: seq<T>, f: T -> Selector): (r: seq<Selector>)
    ensures |r| == |xs| && forall i :: 0 <= i < |xs| ==> r[i] == f(xs[i])
  {
    seq(|xs|, i requires 0 <= i < |xs| => f(xs[i]))
  }

  function ToRules(prefixes: seq<Prefix>): seq<Selector> { Each(prefixes, p => To(p, Main)) }

  function UidRules(uids: seq<nat>, table: Table): seq<Selector> { Each(uids, u => Uids(u, u, table)) }

  function RangeRules(ranges: seq<(nat, nat)>, table: Table): seq<Selector> {
    Each(ranges, (r: (nat, nat)) => Uids(r.0, r.1, table))
  }

  function InboundRules(names: seq<string>, table: Table): seq<Selector> { Each(names, n => Inbound(n, table)) }

  function FromRules(prefixes: seq<Prefix>): seq<Selector> { Each(prefixes, p => LocalFrom(p, Tun)) }

  /** Traffic that stays on the main table. */
  function Exclusions(c: Config, v6: bool): seq<Selector> {
    ToRules(Family(c.excluded, v6)) + UidRules(c.excludeUids, Main) + RangeRules(c.excludeRanges, Main)
    + InboundRules(c.excludeInterfaces, Main)
  }

  /** Traffic of the host itself that goes to the TUN table. */
  function LocalCaptures(c: Config, v6: bool): seq<Selector> {
    if c.includeUids == [] && c.includeRanges == []
    then FromRules(Family(c.addresses, v6)) + [LocalFrom(Unspecified(v6), Tun)]
    else UidRules(c.includeUids, Tun) + RangeRules(c.includeRanges, Tun)
  }

  /** Forwarded traffic that goes to the TUN table. */
  function ForwardCaptures(c: Config): seq<Selector> {
    if c.includeInterfaces == [] then [NotLoopback(Tun)] else InboundRules(c.includeInterfaces, Tun)
  }

  function Selectors(c: Config, v6: bool): seq<Selector> {
    Exclusions(c, v6) + [SuppressDefault] + LocalCaptures(c, v6) + ForwardCaptures(c)
  }

  /** Consecutive priorities from `start` on. */
  function Numbered(v6: bool, start: nat, selectors: seq<Selector>): (r: seq<Action>)
    ensures |r| == |selectors|
    ensures forall i :: 0 <= i < |r| ==> r[i] == Rule(v6, start + i, selectors[i])
  {
    seq(|selectors|, i requires 0 <= i < |selectors| => Rule(v6, start + i, selectors[i]))
  }

  /** The prefixes routed to the device. */
  function RoutedPrefixes(c: Config, v6: bool): seq<Prefix> {
    var own := Family(c.routes, v6);
    if own == [] && !c.includeActive then [Default(v6)] else own
  }

  function Routes(c: Config, v6: bool): (r: seq<Action>)
    ensures forall i :: 0 <= i < |r| ==> r[i].Route? && r[i].v6 == v6
  {
    var all := RoutedPrefixes(c, v6);
    seq(|all|, i requires 0 <= i < |all| => Route(v6, all[i]))
  }

  function Redirects(c: Config): seq<Selector> {
    [MarkGoto(c.outputMark, c.ruleIndex + 2), MarkLookup(c.inputMark, Tun), Nop]
  }

  function FamilyRules(c: Config, v6: bool): seq<Selector> {
    if c.autoRedirect then Redirects(c) else Selectors(c, v6)
  }

  function FamilyPlan(c: Config, v6: bool): seq<Action> {
    Routes(c, v6) + Numbered(v6, c.ruleIndex, FamilyRules(c, v6))
  }

  /** The rules fit below the limit; a priority is also reserved after every rule but `not iif lo`. */
  predicate Fits(c: Config, v6: bool) {
    c.autoRedirect ||
    c.ruleIndex + |Selectors(c, v6)| - (if c.includeInterfaces == [] then 1 else 0) < LIMIT
  }

  function HasFamily(c: Config, v6: bool): bool {
    Family(c.addresses, v6) != []
  }

  function Strict(c: Config, v6: bool): seq<Action> {
    if c.strictRoute && !HasFamily(c, v6) then [Rule(v6, c.ruleIndex, Unreachable)] else []
  }

  function Plan(c: Config): seq<Action> {
    (if HasFamily(c, false) then FamilyPlan(c, false) else [])
    + (if HasFamily(c, true) then FamilyPlan(c, true) else [])
    + Strict(c, false) + Strict(c, true)
  }

  // ---------------------------------------------------------------- building it

  /** `next_priority`, on a 32-bit number. */
  function NextPriority(priority: nat): Option<nat> {
    if priority + 1 < 0x1_0000_0000 && priority + 1 < LIMIT then Some(priority + 1) else None
  }

  /** A vector of actions and the next priority, while the rules `done` are pushed after `before`. */
  datatype Progress = Progress(priority: nat, actions: seq<Action>)

  ghost predicate At(p: Progress, v6: bool, start: nat, before: seq<Action>, done: seq<Selector>) {
    && p.priority == start + |done|
    && (done != [] ==> p.priority < LIMIT)
    && p.actions == before + Numbered(v6, start, done)
  }

  lemma AtStart(v6: bool, start: nat, before: seq<Action>)
    ensures At(Progress(start, before), v6, start, before, [])
  {
  }

  lemma AtNext(p: Progress, v6: bool, start: nat, before: seq<Action>, done: seq<Selector>, s: Selector)
    requires At(p, v6, start, before, done)
    ensures p.priority == start + |done| && (done != [] ==> p.priority < LIMIT)
    ensures p.actions == before + Numbered(v6, start, done)
    ensures p.actions + [Rule(v6, p.priority, s)] == before + Numbered(v6, start, done + [s])
    ensures p.priority + 1 < LIMIT ==>
              At(Progress(p.priority + 1, p.actions + [Rule(v6, p.priority, s)]), v6, start, before, done + [s])
  {
    NumberedConcat(v6, start, done, [s]);
    assert Numbered(v6, start + |done|, [s]) == [Rule(v6, start + |done|, s)];
  }

  /** A loop of `build_family_actions`: push each rule and take the next priority. */
  method PushRules(
    v6: bool, selectors: seq<Selector>, p: Progress,
    ghost start: nat, ghost before: seq<Action>, ghost done: seq<Selector>)
    returns (r: Option<Progress>)
    requires At(p, v6, start, before, done)
    ensures r.None? ==> selectors != [] && start + |done| + |selectors| >= LIMIT
    ensures r.Some? ==> At(r.value, v6, start, before, done + selectors)
  {
    hide At, Numbered;
    var priority, actions := p.priority, p.actions;
    assert done + selectors[..0] == done;
    for i := 0 to |selectors|
      invariant At(Progress(priority, actions), v6, start, before, done + selectors[..i])
    {
      AtNext(Progress(priority, actions), v6, start, before, done + selectors[..i], selectors[i]);
      assert done + selectors[..i + 1] == done + selectors[..i] + [selectors[i]];
      actions := actions + [Rule(v6, priority, selectors[i])];
      var next := NextPriority(priority);
      if next == None { return None; }
      priority := next.value;
    }
    assert selectors[..|selectors|] == selectors;
    return Some(Progress(priority, actions));
  }

  lemma NumberedConcat(v6: bool, start: nat, a: seq<Selector>, b: seq<Selector>)
    ensures Numbered(v6, start, a + b) == Numbered(v6, start, a) + Numbered(v6, start + |a|, b)
  {
  }

  method PushExclusions(c: Config, v6: bool, p: Progress, ghost before: seq<Action>) returns (r: Option<Progress>)
    requires At(p, v6, c.ruleIndex, before, [])
    ensures r.None? ==> c.ruleIndex + |Exclusions(c, v6)| >= LIMIT
    ensures r.Some? ==> At(r.value, v6, c.ruleIndex, before, Exclusions(c, v6))
  {
    hide At, ToRules, UidRules, RangeRules, InboundRules;
    ghost var done := [];
    var rules := ToRules(Family(c.excluded, v6));
    r := PushRules(v6, rules, p, c.ruleIndex, before, done);
    if r == None { return; }
    done, rules := done + rules, UidRules(c.excludeUids, Main);
    r := PushRules(v6, rules, r.value, c.ruleIndex, before, done);
    if r == None { return; }
    done, rules := done + rules, RangeRules(c.excludeRanges, Main);
    r := PushRules(v6, rules, r.value, c.ruleIndex, before, done);
    if r == None { return; }
    done, rules := done + rules, InboundRules(c.excludeInterfaces, Main);
    r := PushRules(v6, rules, r.value, c.ruleIndex, before, done);
    assert done + rules == Exclusions(c, v6);
  }

  method PushLocalCaptures(c: Config, v6: bool, p: Progress, ghost before: seq<Action>, ghost done: seq<Selector>)
    returns (r: Option<Progress>)
    requires At(p, v6, c.ruleIndex, before, done)
    ensures r.None? ==> c.ruleIndex + |done| + |LocalCaptures(c, v6)| >= LIMIT
    ensures r.Some? ==> At(r.value, v6, c.ruleIndex, before, done + LocalCaptures(c, v6))
  {
    hide At, FromRules, UidRules, RangeRules;
    var first, second;
    if c.includeUids == [] && c.includeRanges == [] {
      first, second := FromRules(Family(c.addresses, v6)), [LocalFrom(Unspecified(v6), Tun)];
    } else {
      first, second := UidRules(c.includeUids, Tun), RangeRules(c.includeRanges, Tun);
    }
    r := PushRules(v6, first, p, c.ruleIndex, before, done);
    if r == None { return; }
    r := PushRules(v6, second, r.value, c.ruleIndex, before, done + first);
    assert done + first + second == done + LocalCaptures(c, v6);
  }

  /** `build_family_actions` appends the family's plan, or fails when its rules do not fit. */
  method BuildFamily(c: Config, v6: bool, before: seq<Action>) returns (r: Option<seq<Action>>)
    ensures r.Some? <==> Fits(c, v6)
    ensures r.Some? ==> r.value == before + FamilyPlan(c, v6)
  {
    hide At, Numbered, Routes, Exclusions, LocalCaptures, InboundRules, Redirects;
    var actions := before + Routes(c, v6);
    if c.autoRedirect {
      r := Some(actions + Numbered(v6, c.ruleIndex, Redirects(c)));
      assert r.value == before + FamilyPlan(c, v6);
      return;
    }
    ghost var start, kept := c.ruleIndex, actions;
    ghost var done := Exclusions(c, v6);
    AtStart(v6, start, kept);
    var p := PushExclusions(c, v6, Progress(c.ruleIndex, actions), kept);
    if p == None { return None; }
    p := PushRules(v6, [SuppressDefault], p.value, start, kept, done);
    if p == None { return None; }
    done := done + [SuppressDefault];
    p := PushLocalCaptures(c, v6, p.value, kept, done);
    if p == None { return None; }
    done := done + LocalCaptures(c, v6);
    AtNext(p.value, v6, start, kept, done, NotLoopback(Tun));
    if c.includeInterfaces == [] {
      actions := p.value.actions + [Rule(v6, p.value.priority, NotLoopback(Tun))];
    } else {
      p := PushRules(v6, InboundRules(c.includeInterfaces, Tun), p.value, start, kept, done);
      if p == None { return None; }
      actions := p.value.actions;
      AtNext(p.value, v6, start, kept, done + InboundRules(c.includeInterfaces, Tun), Nop);
    }
    assert before + Routes(c, v6) + Numbered(v6, start, Selectors(c, v6)) == before + FamilyPlan(c, v6);
    r := Some(actions);
  }

  /** `build_actions`. */
  method BuildActions(c: Config) returns (r: Option<seq<Action>>)
    ensures r.Some? <==> forall v6 :: HasFamily(c, v6) ==> Fits(c, v6)
    ensures r.Some? ==> r.value == Plan(c)
  {
    hide FamilyPlan, Fits, HasFamily;
    r := Some([]);
    if HasFamily(c, false) {
      r := BuildFamily(c, false, []);
      if r == None { return; }
    }
    if HasFamily(c, true) {
      r := BuildFamily(c, true, r.value);
      if r == None { return; }
    }
    var actions := r.value;
    if c.strictRoute {
      if !HasFamily(c, false) {
        actions := actions + [Rule(false, c.ruleIndex, Unreachable)];
      }
      if !HasFamily(c, true) {
        actions := actions + [Rule(true, c.ruleIndex, Unreachable)];
      }
    }
    r := Some(actions);
  }

  // ---------------------------------------------------------------- what the plan guarantees

  /** The rule sends what it selects to the main table. */
  predicate IsExclusion(s: Selector) {
    (s.To? || s.Uids? || s.Inbound?) && s.table == Main
  }

  /** The rule looks up the TUN table. */
  predicate IsCapture(s: Selector) {
    (s.To? || s.Uids? || s.Inbound? || s.LocalFrom? || s.NotLoopback? || s.MarkLookup?) && s.table == Tun
  }

  lemma ExclusionsExclude(c: Config, v6: bool)
    ensures forall i :: 0 <= i < |Exclusions(c, v6)| ==> IsExclusion(Exclusions(c, v6)[i])
  {
    hide Family, Each;
  }

  lemma CapturesCapture(c: Config, v6: bool)
    ensures forall i :: 0 <= i < |LocalCaptures(c, v6)| ==> IsCapture(LocalCaptures(c, v6)[i])
    ensures forall i :: 0 <= i < |ForwardCaptures(c)| ==> IsCapture(ForwardCaptures(c)[i])
  {
    hide Family, Each;
  }

  lemma SelectorOrder(c: Config, v6: bool, i: nat)
    requires i < |Selectors(c, v6)|
    ensures IsExclusion(Selectors(c, v6)[i]) <==> i < |Exclusions(c, v6)|
    ensures IsCapture(Selectors(c, v6)[i]) <==> i > |Exclusions(c, v6)|
  {
    hide Exclusions, LocalCaptures, ForwardCaptures;
    ExclusionsExclude(c, v6);
    CapturesCapture(c, v6);
  }

  lemma FamilyPlanRule(c: Config, v6: bool, a: Action)
    requires a in FamilyPlan(c, v6)
    ensures a.v6 == v6
    ensures a.Rule? ==> a.priority >= c.ruleIndex && a.priority - c.ruleIndex < |FamilyRules(c, v6)|
    ensures a.Rule? ==> a.selector == FamilyRules(c, v6)[a.priority - c.ruleIndex]
  {
    hide FamilyRules;
    var routes, rules := Routes(c, v6), Numbered(v6, c.ruleIndex, FamilyRules(c, v6));
    var i :| 0 <= i < |routes + rules| && (routes + rules)[i] == a;
  }

  /** Rules of a family are numbered one after another from the rule index. */
  lemma PlanRule(c: Config, a: Action)
    requires a in Plan(c) && a.Rule?
    ensures a.priority >= c.ruleIndex
    ensures HasFamily(c, a.v6) ==>
              a.priority - c.ruleIndex < |FamilyRules(c, a.v6)| &&
              a.selector == FamilyRules(c, a.v6)[a.priority - c.ruleIndex]
    ensures !HasFamily(c, a.v6) ==> c.strictRoute && a == Rule(a.v6, c.ruleIndex, Unreachable)
  {
    hide FamilyPlan, FamilyRules, HasFamily;
    if HasFamily(c, false) && a in FamilyPlan(c, false) { FamilyPlanRule(c, false, a); }
    if HasFamily(c, true) && a in FamilyPlan(c, true) { FamilyPlanRule(c, true, a); }
  }

  lemma OrderedPair(c: Config, a: Action, b: Action)
    requires !c.autoRedirect
    requires a in Plan(c) && b in Plan(c) && a.Rule? && b.Rule? && a.v6 == b.v6
    ensures IsExclusion(a.selector) && (b.selector.SuppressDefault? || IsCapture(b.selector)) ==>
      a.priority < b.priority
    ensures a.selector.SuppressDefault? && IsCapture(b.selector) ==> a.priority < b.priority
  {
    hide Plan, Selectors, HasFamily;
    PlanRule(c, a);
    PlanRule(c, b);
    if HasFamily(c, a.v6) {
      SelectorOrder(c, a.v6, a.priority - c.ruleIndex);
      SelectorOrder(c, b.v6, b.priority - c.ruleIndex);
    }
  }

  predicate SameFamilyRules(a: Action, b: Action) {
    a.Rule? && b.Rule? && a.v6 == b.v6
  }

  /** In one family, every exclusion comes before the default-route test and that before every TUN lookup. */
  lemma ExclusionsComeFirst(c: Config)
    requires !c.autoRedirect
    ensures forall a, b :: a in Plan(c) && b in Plan(c) && SameFamilyRules(a, b) ==>
              && (IsExclusion(a.selector) && (b.selector.SuppressDefault? || IsCapture(b.selector)) ==>
                a.priority < b.priority)
              && (a.selector.SuppressDefault? && IsCapture(b.selector) ==> a.priority < b.priority)
  {
    hide Plan, IsExclusion, IsCapture;
    forall a, b | a in Plan(c) && b in Plan(c) && SameFamilyRules(a, b)
      ensures IsExclusion(a.selector) && (b.selector.SuppressDefault? || IsCapture(b.selector)) ==>
        a.priority < b.priority
      ensures a.selector.SuppressDefault? && IsCapture(b.selector) ==> a.priority < b.priority
    {
      OrderedPair(c, a, b);
    }
  }

  /** No two rules of a family share a priority. */
  lemma PrioritiesUnique(c: Config)
    ensures forall a, b :: a in Plan(c) && b in Plan(c) && SameFamilyRules(a, b) && a.priority == b.priority ==> a == b
  {
    hide Plan, FamilyRules, HasFamily;
    forall a, b | a in Plan(c) && b in Plan(c) && SameFamilyRules(a, b) && a.priority == b.priority ensures a == b {
      PlanRule(c, a);
      PlanRule(c, b);
    }
  }

  // ---------------------------------------------------------------- when no action comes twice

  ghost predicate Distinct<T>(s: seq<T>) {
    forall i, j :: 0 <= i < j < |s| ==> s[i] != s[j]
  }

  ghost predicate Apart<T>(a: seq<T>, b: seq<T>) {
    forall i, j :: 0 <= i < |a| && 0 <= j < |b| ==> a[i] != b[j]
  }

  lemma DistinctConcat<T>(a: seq<T>, b: seq<T>)
    ensures Distinct(a + b) <==> Distinct(a) && Distinct(b) && Apart(a, b)
  {
    var s := a + b;
    if Distinct(s) {
      forall i, j | 0 <= i < j < |a| ensures a[i] != a[j] { assert s[i] != s[j]; }
      forall i, j | 0 <= i < j < |b| ensures b[i] != b[j] { assert s[|a| + i] != s[|a| + j]; }
      forall i, j | 0 <= i < |a| && 0 <= j < |b| ensures a[i] != b[j] { assert s[i] != s[|a| + j]; }
    }
  }

  lemma RoutesDistinct(c: Config, v6: bool)
    ensures Distinct(Routes(c, v6)) <==> Distinct(Family(c.routes, v6))
  {
    var routes, all := Routes(c, v6), RoutedPrefixes(c, v6);
    assert |routes| == |all| && forall i :: 0 <= i < |all| ==> routes[i] == Route(v6, all[i]);
    assert Distinct(all) <==> Distinct(Family(c.routes, v6));
    if Distinct(all) {
      forall i, j | 0 <= i < j < |routes| ensures routes[i] != routes[j] { assert all[i] != all[j]; }
    }
    if Distinct(routes) {
      forall i, j | 0 <= i < j < |all| ensures all[i] != all[j] { assert routes[i] != routes[j]; }
    }
  }

  lemma FamilyPlanDistinct(c: Config, v6: bool)
    ensures Distinct(FamilyPlan(c, v6)) <==> Distinct(Family(c.routes, v6))
  {
    hide Routes, FamilyRules, Family, Distinct;
    var rules := Numbered(v6, c.ruleIndex, FamilyRules(c, v6));
    RoutesDistinct(c, v6);
    NumberedDistinct(v6, c.ruleIndex, FamilyRules(c, v6));
    DistinctConcat(Routes(c, v6), rules);
  }

  lemma NumberedDistinct(v6: bool, start: nat, selectors: seq<Selector>)
    ensures Distinct(Numbered(v6, start, selectors))
  {
  }

  lemma FamilyOf(c: Config, v6: bool)
    ensures forall i :: 0 <= i < |FamilyPlan(c, v6)| ==> FamilyPlan(c, v6)[i].v6 == v6
  {
    hide FamilyRules;
  }

  /** The actions of a plan that concern one family. */
  function InPlan(c: Config, v6: bool): seq<Action> {
    if HasFamily(c, v6) then FamilyPlan(c, v6) else Strict(c, v6)
  }

  lemma InPlanDistinct(c: Config, v6: bool)
    ensures Distinct(InPlan(c, v6)) <==> (HasFamily(c, v6) ==> Distinct(Family(c.routes, v6)))
    ensures forall i :: 0 <= i < |InPlan(c, v6)| ==> InPlan(c, v6)[i].v6 == v6
  {
    hide FamilyPlan, Family;
    FamilyPlanDistinct(c, v6);
    FamilyOf(c, v6);
  }

  lemma PlanFamilies(c: Config)
    ensures Distinct(Plan(c)) <==> Distinct(InPlan(c, false) + InPlan(c, true))
  {
    hide FamilyPlan, HasFamily, Distinct;
    var four, six, s4, s6 := InPlan(c, false), InPlan(c, true), Strict(c, false), Strict(c, true);
    if HasFamily(c, false) && HasFamily(c, true) {
      assert Plan(c) == four + six;
    } else if HasFamily(c, false) {
      assert Plan(c) == four + six;
    } else if HasFamily(c, true) {
      assert Plan(c) == six + four;
      DistinctConcat(four, six);
      DistinctConcat(six, four);
      ApartBothWays(four, six);
    } else {
      assert Plan(c) == four + six;
    }
  }

  lemma ApartBothWays(a: seq<Action>, b: seq<Action>)
    ensures Apart(a, b) <==> Apart(b, a)
  {
  }

  /** A plan names an action twice exactly when a family in use routes a prefix twice. */
  lemma PlanDistinctIff(c: Config)
    ensures Distinct(Plan(c)) <==> forall v6 :: HasFamily(c, v6) ==> Distinct(Family(c.routes, v6))
  {
    hide Plan, InPlan, Family, HasFamily, Distinct;
    PlanFamilies(c);
    InPlanDistinct(c, false);
    InPlanDistinct(c, true);
    DistinctConcat(InPlan(c, false), InPlan(c, true));
    OtherFamily(InPlan(c, false), InPlan(c, true));
  }

  lemma OtherFamily(a: seq<Action>, b: seq<Action>)
    ensures (forall i :: 0 <= i < |a| ==> !a[i].v6) && (forall i :: 0 <= i < |b| ==> b[i].v6) ==> Apart(a, b)
  {
  }
}
