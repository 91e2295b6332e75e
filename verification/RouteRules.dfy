/**
 Compiled routing rules (src/routing.rs): the rule tree, matching, the domain-only
 over-approximation used by the lazy router, and the metadata scope.

 Regular expressions and networks are kept as arbitrary predicates, so every result
 below holds for every regex engine and every CIDR test.
 */
module RouteRules {
  import opened Basics

  type Regex = string -> bool
  type IpNet = IpAddr -> bool

  datatype LogicalMode = And | Or

  datatype RouteDecision = Outbound(tag: string) | Reject | HijackDns

  datatype RuleAction =
    | Route(decision: RouteDecision)
    | RouteOptions
    | Sniff
    | Resolve(strategy: string)

  /** The match fields of one rule; an empty field matches everything. */
  datatype Fields = Fields(
    domains: seq<string>, suffixes: seq<string>, keywords: seq<string>, regexes: seq<Regex>,
    cidrs: seq<IpNet>, ipVersions: seq<int>, ipPrivate: bool,
    sourceCidrs: seq<IpNet>, sourcePrivate: bool,
    sourcePorts: seq<(int, int)>, ports: seq<(int, int)>,
    networks: seq<string>, protocols: seq<string>, clients: seq<string>,
    inbounds: seq<string>, authUsers: seq<string>,
    clashMode: Option<string>, preferredBy: seq<string>,
    processNames: seq<string>, processPaths: seq<string>, processPathRegexes: seq<Regex>,
    packageNames: seq<string>, packageNameRegexes: seq<Regex>,
    users: seq<string>, userIds: seq<int>,
    networkTypes: seq<string>, networkIsExpensive: bool, networkIsConstrained: bool,
    wifiSsids: seq<string>, wifiBssids: seq<string>,
    interfaceAddresses: map<string, seq<IpNet>>,
    networkInterfaceAddresses: map<string, seq<IpNet>>,
    sourceMacAddresses: seq<string>, sourceHostnames: seq<string>,
    defaultInterfaceAddresses: seq<IpNet>)

  /** `CompiledRule`; `requiresDestinationIp` is computed once, when the rule is compiled. */
  datatype Rule = Rule(
    logicalMode: Option<LogicalMode>, logicalRules: seq<Rule>,
    fields: Fields,
    ruleSets: seq<RuleSet>, matchSource: bool,
    action: RuleAction, invert: bool, requiresDestinationIp: bool)

  datatype RuleSet = RuleSet(rules: seq<Rule>)

  /** The part of a route context collected from the operating system. */
  datatype Metadata = Metadata(
    processName: Option<string>, processPath: Option<string>, packageName: Option<string>,
    user: Option<string>, userId: Option<int>,
    networkType: Option<string>, networkIsExpensive: bool, networkIsConstrained: bool,
    wifiSsid: Option<string>, wifiBssid: Option<string>,
    interfaceAddresses: map<string, seq<IpAddr>>,
    networkInterfaceAddresses: map<string, seq<IpAddr>>,
    sourceMacAddress: Option<string>, sourceHostname: Option<string>,
    defaultInterfaceAddresses: seq<IpAddr>)

  /** The part of a route context known from the connection itself. */
  datatype Connection = Connection(
    destinationPort: Option<int>, sourceIp: Option<IpAddr>, sourcePort: Option<int>,
    network: Option<string>, protocol: Option<string>, client: Option<string>,
    inbound: Option<string>, authUser: Option<string>, clashMode: Option<string>,
    preferredBy: seq<string>)

  datatype Context = Context(
    domain: Option<string>,
    destinationIp: Option<IpAddr>, destinationIps: seq<IpAddr>,
    connection: Connection, metadata: Metadata)
  {
    /** Membership in `destination_addresses()`: the resolved set, then the single address. */
    predicate HasAddress(ip: IpAddr) {
      ip in destinationIps || destinationIp == Some(ip)
    }

    predicate NoAddress() {
      destinationIps == [] && destinationIp.None?
    }

    /** Some candidate destination address satisfies `test`. */
    predicate AnyAddress(test: IpAddr -> bool) {
      || (exists i :: 0 <= i < |destinationIps| && test(destinationIps[i]))
      || (destinationIp.Some? && test(destinationIp.value))
    }

    /** The context handed to a rule-set when `rule_set_ip_cidr_match_source` is set. */
    function ForSource(): Context {
      this.(destinationIp := connection.sourceIp)
    }
  }

  // ---------------------------------------------------------------- string tests

  function Lower(c: char): char {
    if 'A' <= c <= 'Z' then (c as int + 32) as char else c
  }

  function ToLower(s: string): string {
    seq(|s|, i requires 0 <= i < |s| => Lower(s[i]))
  }

  function TrimDots(s: string): string {
    if |s| > 0 && s[|s| - 1] == '.' then TrimDots(s[..|s| - 1]) else s
  }

  function NormalizeDomain(s: string): string {
    ToLower(TrimDots(s))
  }

  predicate EndsWith(s: string, suffix: string) {
    |suffix| <= |s| && s[|s| - |suffix|..] == suffix
  }

  predicate OccursAt(s: string, part: string, i: int) {
    0 <= i <= |s| - |part| && s[i..i + |part|] == part
  }

  predicate Contains(s: string, part: string) {
    exists i | 0 <= i <= |s| :: OccursAt(s, part, i)
  }

  /** A suffix matches the domain itself and every name below it. */
  predicate SuffixMatches(domain: string, suffix: string) {
    domain == suffix || EndsWith(domain, "." + suffix)
  }

  predicate EqIgnoreCase(a: string, b: string) {
    ToLower(a) == ToLower(b)
  }

  // ---------------------------------------------------------------- field tests

  predicate AnyNet(nets: seq<IpNet>, ip: IpAddr) {
    exists i :: 0 <= i < |nets| && nets[i](ip)
  }

  predicate AnyRegex(regexes: seq<Regex>, s: string) {
    exists i :: 0 <= i < |regexes| && regexes[i](s)
  }

  predicate MatchField(expected: seq<string>, actual: Option<string>) {
    expected == [] || (actual.Some? && exists i :: 0 <= i < |expected| && EqIgnoreCase(expected[i], actual.value))
  }

  predicate MatchExact(expected: seq<string>, actual: Option<string>) {
    expected == [] || (actual.Some? && actual.value in expected)
  }

  predicate MatchRegex(regexes: seq<Regex>, actual: Option<string>) {
    |regexes| == 0 || (actual.Some? && AnyRegex(regexes, actual.value))
  }

  predicate MatchPorts(ranges: seq<(int, int)>, port: Option<int>) {
    ranges == [] || (port.Some? && exists i :: 0 <= i < |ranges| && ranges[i].0 <= port.value <= ranges[i].1)
  }

  predicate AddressMapMatches(expected: map<string, seq<IpNet>>, actual: map<string, seq<IpAddr>>) {
    |expected| == 0 ||
    exists key :: key in expected && key in actual &&
      exists i :: 0 <= i < |actual[key]| && AnyNet(expected[key], actual[key][i])
  }

  predicate IsVersion(version: int, ip: IpAddr) {
    (version == 4 && ip.V4?) || (version == 6 && ip.V6?)
  }

  predicate AnyVersion(versions: seq<int>, ip: IpAddr) {
    exists i :: 0 <= i < |versions| && IsVersion(versions[i], ip)
  }

  predicate IsPrivate(ip: IpAddr) {
    match ip
    case V4(a) =>
      || 0x0a000000 <= a < 0x0b000000       // 10.0.0.0/8
      || 0xac100000 <= a < 0xac200000       // 172.16.0.0/12
      || 0xc0a80000 <= a < 0xc0a90000       // 192.168.0.0/16
      || 0x7f000000 <= a < 0x80000000       // loopback
      || 0xa9fe0000 <= a < 0xa9ff0000       // link local
      || a == 0
    case V6(a) =>
      || a == 1
      || a == 0
      || 0xfc00_0000_0000_0000_0000_0000_0000_0000 <= a < 0xfe00_0000_0000_0000_0000_0000_0000_0000
      || 0xfe80_0000_0000_0000_0000_0000_0000_0000 <= a < 0xfec0_0000_0000_0000_0000_0000_0000_0000
  }

  /** The domain fields of a rule against a (normalized) domain. */
  predicate DomainTests(f: Fields, domain: string) {
    && (f.domains == [] || domain in f.domains)
    && (f.suffixes == [] || exists i :: 0 <= i < |f.suffixes| && SuffixMatches(domain, f.suffixes[i]))
    && (f.keywords == [] || exists i :: 0 <= i < |f.keywords| && Contains(domain, f.keywords[i]))
    && (|f.regexes| == 0 || AnyRegex(f.regexes, domain))
  }

  predicate NoDomainTests(f: Fields) {
    f.domains == [] && f.suffixes == [] && f.keywords == [] && |f.regexes| == 0
  }

  /** Domain fields in `matches`: without a domain only a rule without domain fields passes. */
  predicate MatchDomain(f: Fields, domain: Option<string>) {
    if domain.Some? then DomainTests(f, domain.value) else NoDomainTests(f)
  }

  predicate NoAddressTests(f: Fields) {
    |f.cidrs| == 0 && f.ipVersions == [] && !f.ipPrivate
  }

  predicate MatchAddresses(f: Fields, c: Context) {
    && (|f.cidrs| == 0 || c.AnyAddress(ip => AnyNet(f.cidrs, ip)))
    && (f.ipVersions == [] || c.AnyAddress(ip => AnyVersion(f.ipVersions, ip)))
    && (!f.ipPrivate || c.AnyAddress(ip => IsPrivate(ip)))
  }

  predicate NoConnectionTests(f: Fields) {
    && |f.sourceCidrs| == 0 && !f.sourcePrivate && f.sourcePorts == [] && f.ports == []
    && f.networks == [] && f.protocols == [] && f.clients == [] && f.inbounds == []
    && f.authUsers == [] && f.clashMode.None? && f.preferredBy == []
  }

  predicate MatchConnection(f: Fields, c: Connection) {
    && (|f.sourceCidrs| == 0 || (c.sourceIp.Some? && AnyNet(f.sourceCidrs, c.sourceIp.value)))
    && (!f.sourcePrivate || (c.sourceIp.Some? && IsPrivate(c.sourceIp.value)))
    && MatchPorts(f.sourcePorts, c.sourcePort)
    && MatchPorts(f.ports, c.destinationPort)
    && MatchField(f.networks, c.network)
    && MatchField(f.protocols, c.protocol)
    && MatchField(f.clients, c.client)
    && MatchExact(f.inbounds, c.inbound)
    && MatchField(f.authUsers, c.authUser)
    && (f.clashMode.None? || (c.clashMode.Some? && EqIgnoreCase(f.clashMode.value, c.clashMode.value)))
    && (f.preferredBy == [] || exists i :: 0 <= i < |c.preferredBy| && c.preferredBy[i] in f.preferredBy)
  }

  predicate MatchProcess(f: Fields, m: Metadata) {
    && MatchField(f.processNames, m.processName)
    && MatchExact(f.processPaths, m.processPath)
    && MatchRegex(f.processPathRegexes, m.processPath)
    && MatchField(f.packageNames, m.packageName)
    && MatchRegex(f.packageNameRegexes, m.packageName)
  }

  predicate MatchUser(f: Fields, m: Metadata) {
    && MatchField(f.users, m.user)
    && (f.userIds == [] || (m.userId.Some? && m.userId.value in f.userIds))
  }

  predicate MatchNetwork(f: Fields, m: Metadata) {
    && MatchField(f.networkTypes, m.networkType)
    && (!f.networkIsExpensive || m.networkIsExpensive)
    && (!f.networkIsConstrained || m.networkIsConstrained)
    && MatchField(f.wifiSsids, m.wifiSsid)
    && MatchField(f.wifiBssids, m.wifiBssid)
    && (|f.defaultInterfaceAddresses| == 0 ||
        exists i :: 0 <= i < |m.defaultInterfaceAddresses|
                 && AnyNet(f.defaultInterfaceAddresses, m.defaultInterfaceAddresses[i]))
  }

  predicate MatchInterface(f: Fields, m: Metadata) {
    && AddressMapMatches(f.interfaceAddresses, m.interfaceAddresses)
    && AddressMapMatches(f.networkInterfaceAddresses, m.networkInterfaceAddresses)
  }

  predicate MatchMetadata(f: Fields, m: Metadata) {
    && MatchProcess(f, m)
    && MatchUser(f, m)
    && MatchNetwork(f, m)
    && MatchInterface(f, m)
    && MatchField(f.sourceMacAddresses, m.sourceMacAddress)
    && MatchField(f.sourceHostnames, m.sourceHostname)
  }

  // ---------------------------------------------------------------- matching

  /** `CompiledRule::matches`. */
  predicate Matches(r: Rule, c: Context, domain: Option<string>)
    decreases r
  {
    if r.logicalMode.Some? then
      (match r.logicalMode.value
       case And => forall i :: 0 <= i < |r.logicalRules| ==> Matches(r.logicalRules[i], c, domain)
       case Or => exists i :: 0 <= i < |r.logicalRules| && Matches(r.logicalRules[i], c, domain)) != r.invert
    else
      (&& MatchDomain(r.fields, domain)
       && MatchAddresses(r.fields, c)
       && MatchConnection(r.fields, c.connection)
       && MatchMetadata(r.fields, c.metadata)
       && (|r.ruleSets| == 0 ||
           exists s, i :: 0 <= s < |r.ruleSets| && 0 <= i < |r.ruleSets[s].rules|
              && Matches(r.ruleSets[s].rules[i], if r.matchSource then c.ForSource() else c, domain))) != r.invert
  }

  /** `CompiledRule::domain_fields_match`. */
  predicate DomainFieldsMatch(r: Rule, domain: Option<string>)
    decreases r
  {
    domain.Some? &&
    if r.logicalMode.Some? then
      (match r.logicalMode.value
       case And => forall i :: 0 <= i < |r.logicalRules| ==> DomainFieldsMatch(r.logicalRules[i], domain)
       case Or => exists i :: 0 <= i < |r.logicalRules| && DomainFieldsMatch(r.logicalRules[i], domain)) != r.invert
    else
      (&& DomainTests(r.fields, domain.value)
       && (|r.ruleSets| == 0 ||
           exists s, i :: 0 <= s < |r.ruleSets| && 0 <= i < |r.ruleSets[s].rules|
              && DomainFieldsMatch(r.ruleSets[s].rules[i], domain))) != r.invert
  }

  // ---------------------------------------------------------------- metadata scope

  /** `LinuxMetadataScope`: the groups of operating-system metadata some rule looks at. */
  datatype Scope = Scope(process: bool, user: bool, iface: bool, network: bool, mac: bool, hostname: bool)
  {
    function Union(other: Scope): Scope {
      Scope(process || other.process, user || other.user, iface || other.iface,
            network || other.network, mac || other.mac, hostname || other.hostname)
    }

    predicate Covers(other: Scope) {
      && (other.process ==> process) && (other.user ==> user) && (other.iface ==> iface)
      && (other.network ==> network) && (other.mac ==> mac) && (other.hostname ==> hostname)
    }
  }

  const NoScope := Scope(false, false, false, false, false, false)
  const FullScope := Scope(true, true, true, true, true, true)

  function FieldScope(f: Fields): Scope {
    Scope(
      f.processNames != [] || f.processPaths != [] || |f.processPathRegexes| != 0
        || f.packageNames != [] || |f.packageNameRegexes| != 0,
      f.users != [] || f.userIds != [],
      |f.interfaceAddresses| != 0 || |f.networkInterfaceAddresses| != 0,
      f.networkTypes != [] || f.networkIsExpensive || f.networkIsConstrained
        || f.wifiSsids != [] || f.wifiBssids != [] || |f.defaultInterfaceAddresses| != 0,
      f.sourceMacAddresses != [],
      f.sourceHostnames != [])
  }

  /** `CompiledRule::metadata_scope`: the rule's own fields and those of every nested rule. */
  function MetadataScope(r: Rule): Scope
    decreases r, 0
  {
    FieldScope(r.fields).Union(RulesScope(r.logicalRules)).Union(RuleSetsScope(r.ruleSets))
  }

  /** `Router::linux_metadata_scope`: the union over a list of rules. */
  function RulesScope(rules: seq<Rule>): (s: Scope)
    ensures forall i :: 0 <= i < |rules| ==> s.Covers(MetadataScope(rules[i]))
    decreases rules, 1
  {
    if |rules| == 0 then NoScope else MetadataScope(rules[0]).Union(RulesScope(rules[1..]))
  }

  function RuleSetsScope(sets: seq<RuleSet>): (s: Scope)
    ensures forall k, i :: 0 <= k < |sets| && 0 <= i < |sets[k].rules| ==> s.Covers(MetadataScope(sets[k].rules[i]))
    decreases sets, 1
  {
    if |sets| == 0 then NoScope else RulesScope(sets[0].rules).Union(RuleSetsScope(sets[1..]))
  }

  // ---------------------------------------------------------------- compilation

  /** `requires_destination_ip` as the compiler computes it from the parts of a rule. */
  predicate NeedsAddress(f: Fields, logicalRules: seq<Rule>, ruleSets: seq<RuleSet>) {
    || !NoAddressTests(f)
    || (exists s, i ::
          0 <= s < |ruleSets| && 0 <= i < |ruleSets[s].rules| && ruleSets[s].rules[i].requiresDestinationIp)
    || (exists i :: 0 <= i < |logicalRules| && logicalRules[i].requiresDestinationIp)
  }

  /** The flag of every rule of the tree is the one the compiler computes. */
  ghost predicate WellCompiled(r: Rule)
    decreases r
  {
    && r.requiresDestinationIp == NeedsAddress(r.fields, r.logicalRules, r.ruleSets)
    && (forall i :: 0 <= i < |r.logicalRules| ==> WellCompiled(r.logicalRules[i]))
    && (forall s, i :: 0 <= s < |r.ruleSets| && 0 <= i < |r.ruleSets[s].rules| ==> WellCompiled(r.ruleSets[s].rules[i]))
  }

  ghost predicate AllWellCompiled(rules: seq<Rule>) {
    forall i :: 0 <= i < |rules| ==> WellCompiled(rules[i])
  }

  /** A configured rule before compilation, its textual fields already parsed. */
  datatype RawRule = RawRule(
    kind: string, mode: Option<string>, rules: seq<RawRule>, ruleSetTags: seq<string>,
    fields: Fields, matchSource: bool, invert: bool, legacyGeo: bool,
    action: Option<string>, outbound: Option<string>, strategy: string)

  /** The action part of `compile`; nested rules carry a fixed placeholder action. */
  function CompileAction(raw: RawRule, requireDecision: bool): Result<RuleAction> {
    if !requireDecision then Ok(Route(Reject))
    else if raw.action.None? || raw.action.value == "route" then
      if raw.outbound.Some? then Ok(Route(Outbound(raw.outbound.value))) else Err
    else if raw.action.value == "reject" then Ok(Route(Reject))
    else if raw.action.value == "hijack-dns" then Ok(Route(HijackDns))
    else if raw.action.value == "direct" then Ok(Route(Outbound("direct")))
    else if raw.action.value == "bypass" then
      Ok(Route(Outbound(if raw.outbound.Some? then raw.outbound.value else "direct")))
    else if raw.action.value == "route-options" then Ok(RouteOptions)
    else if raw.action.value == "sniff" then Ok(Sniff)
    else if raw.action.value == "resolve" then Ok(Resolve(raw.strategy))
    else Err
  }

  function CompileMode(raw: RawRule): Result<Option<LogicalMode>> {
    if raw.kind == "logical" then
      if |raw.rules| == 0 then Err
      else if raw.mode.None? || raw.mode.value == "and" then Ok(Some(And))
      else if raw.mode.value == "or" then Ok(Some(Or))
      else Err
    else if raw.kind == "" || raw.kind == "default" then Ok(None)
    else Err
  }

  /** `CompiledRule::compile`: every flag of the result is the recomputed one. */
  function Compile(raw: RawRule, sets: map<string, seq<Rule>>, requireDecision: bool): (r: Result<Rule>)
    requires forall tag :: tag in sets ==> AllWellCompiled(sets[tag])
    ensures r.Ok? ==> WellCompiled(r.value)
    ensures r.Ok? ==> r.value.invert == raw.invert && |r.value.logicalRules| == |raw.rules|
    ensures r.Ok? ==> (forall tag :: tag in raw.ruleSetTags ==> tag in sets)
    decreases raw, 0
  {
    if raw.legacyGeo || raw.fields.preferredBy != [] then Err
    else
      var mode := CompileMode(raw);
      var action := CompileAction(raw, requireDecision);
      var ruleSets := LookupSets(raw.ruleSetTags, sets);
      var nested := CompileAll(raw.rules, sets);
      if mode.Err? || action.Err? || ruleSets.Err? || nested.Err? then Err
      else
        Ok(Rule(mode.value, nested.value, raw.fields, ruleSets.value, raw.matchSource, action.value, raw.invert,
                NeedsAddress(raw.fields, nested.value, ruleSets.value)))
  }

  function CompileAll(raws: seq<RawRule>, sets: map<string, seq<Rule>>): (r: Result<seq<Rule>>)
    requires forall tag :: tag in sets ==> AllWellCompiled(sets[tag])
    ensures r.Ok? ==> |r.value| == |raws| && AllWellCompiled(r.value)
    decreases raws, 1
  {
    if |raws| == 0 then Ok([])
    else
      var head := Compile(raws[0], sets, false);
      var tail := CompileAll(raws[1..], sets);
      if head.Err? || tail.Err? then Err else Ok([head.value] + tail.value)
  }

  function LookupSets(tags: seq<string>, sets: map<string, seq<Rule>>): (r: Result<seq<RuleSet>>)
    requires forall tag :: tag in sets ==> AllWellCompiled(sets[tag])
    ensures r.Ok? <==> forall tag :: tag in tags ==> tag in sets
    ensures r.Ok? ==>
      && |r.value| == |tags|
      && forall s :: 0 <= s < |tags| ==> tags[s] in sets && r.value[s].rules == sets[tags[s]]
    ensures r.Ok? ==> forall s :: 0 <= s < |r.value| ==> AllWellCompiled(r.value[s].rules)
  {
    if tags == [] then Ok([])
    else if tags[0] !in sets then Err
    else
      var tail := LookupSets(tags[1..], sets);
      if tail.Err? then Err else Ok([RuleSet(sets[tags[0]])] + tail.value)
  }
}
