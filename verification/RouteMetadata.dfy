/**
 Scoped collection of operating-system metadata (src/linux_route.rs) and its
 non-interference with routing (src/routing.rs).
 */
module RouteMetadata {
  import opened Basics
  import opened RouteRules
  import opened RuleScan
  import opened LazyRouting

  /** What the operating system would report about one connection and its host. */
  datatype OsFacts = OsFacts(
    interfaceAddresses: map<string, seq<IpAddr>>,
    networkInterfaceAddresses: map<string, seq<IpAddr>>,
    owner: Option<SocketOwner>,
    defaultInterface: Option<InterfaceFacts>,
    sourceMacAddress: Option<string>, sourceHostname: Option<string>)

  datatype SocketOwner = SocketOwner(
    uid: int, user: Option<string>,
    process: Option<(Option<string>, Option<string>)>)   // comm and exe of the owning process

  datatype InterfaceFacts = InterfaceFacts(
    kind: string, metered: bool, addresses: seq<IpAddr>,
    ssid: Option<string>, bssid: Option<string>)

  /** `collect_tcp`: only the groups in scope are looked up; the others keep their defaults. */
  function Collect(os: OsFacts, scope: Scope): Metadata {
    var owned := (scope.process || scope.user) && os.owner.Some?;
    var process := if owned && scope.process then os.owner.value.process else None;
    var device := if scope.network then os.defaultInterface else None;
    var wifi := device.Some? && device.value.kind == "wifi";
    Metadata(
      if process.Some? then process.value.0 else None,
      if process.Some? then process.value.1 else None,
      None,
      if owned then os.owner.value.user else None,
      if owned then Some(os.owner.value.uid) else None,
      if device.Some? then Some(device.value.kind) else None,
      device.Some? && device.value.metered,
      false,
      if wifi then device.value.ssid else None,
      if wifi then device.value.bssid else None,
      if scope.iface then os.interfaceAddresses else map[],
      if scope.iface then os.networkInterfaceAddresses else map[],
      if scope.mac then os.sourceMacAddress else None,
      if scope.hostname then os.sourceHostname else None,
      if device.Some? then device.value.addresses else [])
  }

  /** The records agree on every field of every group in scope. */
  ghost predicate AgreeOn(scope: Scope, m: Metadata, m': Metadata) {
    && (scope.process ==>
      m.processName == m'.processName && m.processPath == m'.processPath && m.packageName == m'.packageName)
    && (scope.user ==> m.user == m'.user && m.userId == m'.userId)
    && (scope.iface ==>
          && m.interfaceAddresses == m'.interfaceAddresses
          && m.networkInterfaceAddresses == m'.networkInterfaceAddresses)
    && (scope.network ==>
          && m.networkType == m'.networkType
          && m.networkIsExpensive == m'.networkIsExpensive
          && m.networkIsConstrained == m'.networkIsConstrained
          && m.wifiSsid == m'.wifiSsid
          && m.wifiBssid == m'.wifiBssid
          && m.defaultInterfaceAddresses == m'.defaultInterfaceAddresses)
    && (scope.mac ==> m.sourceMacAddress == m'.sourceMacAddress)
    && (scope.hostname ==> m.sourceHostname == m'.sourceHostname)
  }

  /** Scoped and full collection agree on the scope. */
  lemma CollectAgrees(os: OsFacts, scope: Scope)
    ensures AgreeOn(scope, Collect(os, scope), Collect(os, FullScope))
  {
  }

  /** With everything in scope, what the system reports is what is collected; package names are never known. */
  lemma CollectsWhatIsReported(os: OsFacts)
    ensures
      var m := Collect(os, FullScope);
      && (os.owner.Some? ==> m.userId == Some(os.owner.value.uid) && m.user == os.owner.value.user)
      && (os.owner.Some? && os.owner.value.process.Some? ==>
            (m.processName, m.processPath) == os.owner.value.process.value)
      && (os.defaultInterface.Some? ==>
            && m.networkType == Some(os.defaultInterface.value.kind)
            && m.networkIsExpensive == os.defaultInterface.value.metered
            && m.defaultInterfaceAddresses == os.defaultInterface.value.addresses
            && (m.networkType == Some("wifi") ==>
                  m.wifiSsid == os.defaultInterface.value.ssid && m.wifiBssid == os.defaultInterface.value.bssid))
      && m.interfaceAddresses == os.interfaceAddresses
      && m.networkInterfaceAddresses == os.networkInterfaceAddresses
      && m.sourceMacAddress == os.sourceMacAddress && m.sourceHostname == os.sourceHostname
      && m.packageName.None? && !m.networkIsConstrained
  {
  }

  // ---------------------------------------------------------------- the scope is exact

  datatype Group = ProcessGroup | UserGroup | InterfaceGroup | NetworkGroup | MacGroup | HostnameGroup

  predicate InScope(scope: Scope, g: Group) {
    match g
    case ProcessGroup => scope.process
    case UserGroup => scope.user
    case InterfaceGroup => scope.iface
    case NetworkGroup => scope.network
    case MacGroup => scope.mac
    case HostnameGroup => scope.hostname
  }

  /** The tests of one group on the metadata. */
  predicate Passes(f: Fields, g: Group, m: Metadata) {
    match g
    case ProcessGroup => MatchProcess(f, m)
    case UserGroup => MatchUser(f, m)
    case InterfaceGroup => MatchInterface(f, m)
    case NetworkGroup => MatchNetwork(f, m)
    case MacGroup => MatchField(f.sourceMacAddresses, m.sourceMacAddress)
    case HostnameGroup => MatchField(f.sourceHostnames, m.sourceHostname)
  }

  /** A group is in the scope of fields exactly when their tests of it can fail. */
  lemma FieldScopeExact(f: Fields, g: Group)
    ensures InScope(FieldScope(f), g) <==> exists m: Metadata :: !Passes(f, g, m)
  {
    if InScope(FieldScope(f), g) {
      NothingPasses(f, g);
    }
  }

  /** What is known of a connection that nothing was collected about. */
  const Unknown :=
    Metadata(None, None, None, None, None, None, false, false, None, None, map[], map[], None, None, [])

  lemma NothingPasses(f: Fields, g: Group)
    requires InScope(FieldScope(f), g)
    ensures !Passes(f, g, Unknown)
  {
    hide MatchExact, AnyNet, AnyRegex;
    assert forall key :: key !in Unknown.interfaceAddresses && key !in Unknown.networkInterfaceAddresses;
    NoneExact(f.processPaths);
  }

  lemma NoneExact(expected: seq<string>)
    ensures MatchExact(expected, None) <==> expected == []
  {
  }

  /** Some rule of the tree tests the group. */
  ghost predicate Tests(r: Rule, g: Group)
    decreases r
  {
    || InScope(FieldScope(r.fields), g)
    || (exists i :: 0 <= i < |r.logicalRules| && Tests(r.logicalRules[i], g))
    || (exists s, i :: 0 <= s < |r.ruleSets| && 0 <= i < |r.ruleSets[s].rules| && Tests(r.ruleSets[s].rules[i], g))
  }

  lemma {:induction false} RulesTest(rules: seq<Rule>, g: Group)
    ensures InScope(RulesScope(rules), g) <==> exists i :: 0 <= i < |rules| && InScope(MetadataScope(rules[i]), g)
    decreases |rules|
  {
    hide MetadataScope;
    if |rules| > 0 {
      RulesTest(rules[1..], g);
      assert forall i :: 1 <= i < |rules| ==> rules[i] == rules[1..][i - 1];
      if InScope(MetadataScope(rules[0]), g) { assert InScope(MetadataScope(rules[0]), g); }
      if i :| 0 <= i < |rules| - 1 && InScope(MetadataScope(rules[1..][i]), g) {
        assert rules[i + 1] == rules[1..][i];
      }
    }
  }

  lemma {:induction false} SetsTest(sets: seq<RuleSet>, g: Group)
    ensures InScope(RuleSetsScope(sets), g) <==>
            exists s, i :: 0 <= s < |sets| && 0 <= i < |sets[s].rules| && InScope(MetadataScope(sets[s].rules[i]), g)
    decreases |sets|
  {
    hide MetadataScope, RulesScope;
    if |sets| > 0 {
      SetsTest(sets[1..], g);
      RulesTest(sets[0].rules, g);
      assert forall s :: 1 <= s < |sets| ==> sets[s] == sets[1..][s - 1];
      forall s | 0 <= s < |sets| - 1 ensures sets[s + 1] == sets[1..][s] {
      }
    }
  }

  /** A group is in the scope of a rule exactly when some rule of its tree tests it. */
  lemma {:induction false} ScopeExact(r: Rule, g: Group)
    ensures InScope(MetadataScope(r), g) <==> Tests(r, g)
    decreases r
  {
    hide FieldScope, RulesScope, RuleSetsScope;
    RulesTest(r.logicalRules, g);
    SetsTest(r.ruleSets, g);
    forall i | 0 <= i < |r.logicalRules|
      ensures InScope(MetadataScope(r.logicalRules[i]), g) <==> Tests(r.logicalRules[i], g)
    {
      ScopeExact(r.logicalRules[i], g);
    }
    forall s, i | 0 <= s < |r.ruleSets| && 0 <= i < |r.ruleSets[s].rules|
      ensures InScope(MetadataScope(r.ruleSets[s].rules[i]), g) <==> Tests(r.ruleSets[s].rules[i], g)
    {
      ScopeExact(r.ruleSets[s].rules[i], g);
    }
  }

  // ---------------------------------------------------------------- non-interference

  lemma ScopeParts(r: Rule, scope: Scope)
    requires scope.Covers(MetadataScope(r))
    ensures scope.Covers(FieldScope(r.fields))
    ensures forall i :: 0 <= i < |r.logicalRules| ==> scope.Covers(MetadataScope(r.logicalRules[i]))
    ensures forall s, i :: 0 <= s < |r.ruleSets| && 0 <= i < |r.ruleSets[s].rules| ==>
                             scope.Covers(MetadataScope(r.ruleSets[s].rules[i]))
  {
  }

  /** A rule, inverted or nested, cannot see metadata outside its scope. */
  lemma {:induction false} MatchesNonInterference(r: Rule, scope: Scope, c: Context, c': Context,
    domain: Option<string>)
    requires scope.Covers(MetadataScope(r)) && AgreeOn(scope, c.metadata, c'.metadata)
    requires c' == c.(metadata := c'.metadata)
    ensures Matches(r, c, domain) == Matches(r, c', domain)
    decreases r
  {
    ScopeParts(r, scope);
    forall i | 0 <= i < |r.logicalRules|
      ensures Matches(r.logicalRules[i], c, domain) == Matches(r.logicalRules[i], c', domain)
    {
      MatchesNonInterference(r.logicalRules[i], scope, c, c', domain);
    }
    if r.logicalMode.None? {
      var d, d' := if r.matchSource then c.ForSource() else c, if r.matchSource then c'.ForSource() else c';
      forall s, i | 0 <= s < |r.ruleSets| && 0 <= i < |r.ruleSets[s].rules|
        ensures Matches(r.ruleSets[s].rules[i], d, domain) == Matches(r.ruleSets[s].rules[i], d', domain)
      {
        MatchesNonInterference(r.ruleSets[s].rules[i], scope, d, d', domain);
      }
      LeafNonInterference(r, c, c', domain);
    }
  }

  lemma LeafNonInterference(r: Rule, c: Context, c': Context, domain: Option<string>)
    requires r.logicalMode.None? && AgreeOn(FieldScope(r.fields), c.metadata, c'.metadata)
    requires c' == c.(metadata := c'.metadata)
    requires
      var d, d' := if r.matchSource then c.ForSource() else c, if r.matchSource then c'.ForSource() else c';
      forall s, i :: 0 <= s < |r.ruleSets| && 0 <= i < |r.ruleSets[s].rules| ==>
                       Matches(r.ruleSets[s].rules[i], d, domain) == Matches(r.ruleSets[s].rules[i], d', domain)
    ensures Matches(r, c, domain) == Matches(r, c', domain)
  {
    FieldsNonInterference(r.fields, c.metadata, c'.metadata);
    assert MatchAddresses(r.fields, c) == MatchAddresses(r.fields, c');
  }

  lemma FieldsNonInterference(f: Fields, m: Metadata, m': Metadata)
    requires AgreeOn(FieldScope(f), m, m')
    ensures MatchMetadata(f, m) == MatchMetadata(f, m')
  {
    var scope := FieldScope(f);
    assert MatchProcess(f, m) == MatchProcess(f, m') by {
      assert scope.process || (f.processNames == [] && f.processPaths == [] && f.packageNames == []);
    }
    assert MatchNetwork(f, m) == MatchNetwork(f, m') by {
      assert scope.network || (f.networkTypes == [] && f.wifiSsids == [] && f.wifiBssids == []);
    }
    assert MatchInterface(f, m) == MatchInterface(f, m');
  }

  /** Contexts that agree on the router's scope get the same lookup results, plain and lazy. */
  lemma LookupNonInterference(rules: seq<Rule>, c: Context, c': Context, from: nat)
    requires AgreeOn(RulesScope(rules), c.metadata, c'.metadata) && c' == c.(metadata := c'.metadata)
    ensures NextAction(rules, c, from) == NextAction(rules, c', from)
    ensures NextActionLazy(rules, c, from) == NextActionLazy(rules, c', from)
  {
    forall i | 0 <= i < |rules| ensures MatchVector(rules, c)[i] == MatchVector(rules, c')[i] {
      MatchesNonInterference(rules[i], RulesScope(rules), c, c', Normalized(c));
    }
    assert MatchVector(rules, c) == MatchVector(rules, c');
    assert WantsVector(rules, c) == WantsVector(rules, c');
  }

  /** Collecting only what the rules mention routes exactly like collecting everything. */
  lemma ScopedCollectionSuffices(rules: seq<Rule>, os: OsFacts, c: Context, from: nat)
    ensures
      var scoped := c.(metadata := Collect(os, RulesScope(rules)));
      var full := c.(metadata := Collect(os, FullScope));
      && NextAction(rules, scoped, from) == NextAction(rules, full, from)
      && NextActionLazy(rules, scoped, from) == NextActionLazy(rules, full, from)
  {
    CollectAgrees(os, RulesScope(rules));
    var scoped := c.(metadata := Collect(os, RulesScope(rules)));
    LookupNonInterference(rules, scoped, c.(metadata := Collect(os, FullScope)), from);
  }
}
