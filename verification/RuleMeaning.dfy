/**
 What a configured routing rule means, told from its configuration: a rule tests its fields one by
 one, and a field admits what some configured value admits. Compilation (src/routing.rs) preserves
 this meaning, and logical rules obey the laws of "and" and "or".
 */
module RuleMeaning {
  import opened Basics
  import opened RouteRules
  import opened RuleScan
  import opened LazyRouting
  import RouteEvaluation
  import RouteExplanation

  // ---------------------------------------------------------------- the reference

  /** A field without values admits everything; otherwise some value must admit something seen. */
  ghost predicate Admits<T, S>(expected: seq<T>, seen: seq<S>, ok: (T, S) -> bool) {
    |expected| == 0 || exists i, j :: 0 <= i < |expected| && 0 <= j < |seen| && ok(expected[i], seen[j])
  }

  function Of<T>(o: Option<T>): seq<T> { if o.Some? then [o.value] else [] }

  function Candidates(c: Context): seq<IpAddr> { c.destinationIps + Of(c.destinationIp) }

  ghost predicate SomePrivate(ips: seq<IpAddr>) { exists i :: 0 <= i < |ips| && IsPrivate(ips[i]) }

  ghost predicate SuffixOf(suffix: string, domain: string) {
    domain == suffix || exists below: string :: domain == below + "." + suffix
  }

  ghost predicate PartOf(part: string, s: string) {
    exists a: string, b: string :: s == a + part + b
  }

  ghost predicate SameText(a: string, b: string) {
    |a| == |b| && forall i :: 0 <= i < |a| ==> Lower(a[i]) == Lower(b[i])
  }

  predicate SameString(a: string, b: string) { a == b }

  predicate SameNumber(a: int, b: int) { a == b }

  predicate InNet(net: IpNet, ip: IpAddr) { net(ip) }

  predicate InRegex(regex: Regex, s: string) { regex(s) }

  predicate InRange(range: (int, int), port: int) { range.0 <= port <= range.1 }

  predicate Version(version: int, ip: IpAddr) { (version == 4 && ip.V4?) || (version == 6 && ip.V6?) }

  ghost predicate SomeInterface(expected: map<string, seq<IpNet>>, seen: map<string, seq<IpAddr>>) {
    expected.Keys == {} ||
    exists name :: name in expected && name in seen && |expected[name]| > 0 && Admits(expected[name], seen[name], InNet)
  }

  ghost predicate DomainAdmits(f: Fields, domain: Option<string>) {
    && Admits(f.domains, Of(domain), SameString)
    && Admits(f.suffixes, Of(domain), SuffixOf)
    && Admits(f.keywords, Of(domain), PartOf)
    && Admits(f.regexes, Of(domain), InRegex)
  }

  ghost predicate AddressAdmits(f: Fields, c: Context) {
    && Admits(f.cidrs, Candidates(c), InNet)
    && Admits(f.ipVersions, Candidates(c), Version)
    && (f.ipPrivate ==> SomePrivate(Candidates(c)))
  }

  ghost predicate ConnectionAdmits(f: Fields, c: Connection) {
    && Admits(f.sourceCidrs, Of(c.sourceIp), InNet)
    && (f.sourcePrivate ==> SomePrivate(Of(c.sourceIp)))
    && Admits(f.sourcePorts, Of(c.sourcePort), InRange)
    && Admits(f.ports, Of(c.destinationPort), InRange)
    && Admits(f.networks, Of(c.network), SameText)
    && Admits(f.protocols, Of(c.protocol), SameText)
    && Admits(f.clients, Of(c.client), SameText)
    && Admits(f.inbounds, Of(c.inbound), SameString)
    && Admits(f.authUsers, Of(c.authUser), SameText)
    && Admits(Of(f.clashMode), Of(c.clashMode), SameText)
    && Admits(f.preferredBy, c.preferredBy, SameString)
  }

  ghost predicate MetadataAdmits(f: Fields, m: Metadata) {
    && Admits(f.processNames, Of(m.processName), SameText)
    && Admits(f.processPaths, Of(m.processPath), SameString)
    && Admits(f.processPathRegexes, Of(m.processPath), InRegex)
    && Admits(f.packageNames, Of(m.packageName), SameText)
    && Admits(f.packageNameRegexes, Of(m.packageName), InRegex)
    && Admits(f.users, Of(m.user), SameText)
    && Admits(f.userIds, Of(m.userId), SameNumber)
    && Admits(f.networkTypes, Of(m.networkType), SameText)
    && (f.networkIsExpensive ==> m.networkIsExpensive)
    && (f.networkIsConstrained ==> m.networkIsConstrained)
    && Admits(f.wifiSsids, Of(m.wifiSsid), SameText)
    && Admits(f.wifiBssids, Of(m.wifiBssid), SameText)
    && Admits(f.defaultInterfaceAddresses, m.defaultInterfaceAddresses, InNet)
    && SomeInterface(f.interfaceAddresses, m.interfaceAddresses)
    && SomeInterface(f.networkInterfaceAddresses, m.networkInterfaceAddresses)
    && Admits(f.sourceMacAddresses, Of(m.sourceMacAddress), SameText)
    && Admits(f.sourceHostnames, Of(m.sourceHostname), SameText)
  }

  ghost predicate FieldsAdmit(f: Fields, c: Context, domain: Option<string>) {
    && DomainAdmits(f, domain) && AddressAdmits(f, c)
    && ConnectionAdmits(f, c.connection) && MetadataAdmits(f, c.metadata)
  }

  /** Some rule of the named rule sets matches; with match-source, on the source as the destination. */
  ghost predicate SetsAdmit(raw: RawRule, sets: map<string, seq<Rule>>, c: Context, domain: Option<string>) {
    var seen := if raw.matchSource then c.(destinationIp := c.connection.sourceIp) else c;
    raw.ruleSetTags == [] ||
    exists tag, i ::
      tag in raw.ruleSetTags && tag in sets && 0 <= i < |sets[tag]| && Matches(sets[tag][i], seen, domain)
  }

  /** The configured rule holds of the context. */
  ghost predicate Means(raw: RawRule, sets: map<string, seq<Rule>>, c: Context, domain: Option<string>)
    decreases raw
  {
    if raw.kind == "logical" then
      (if raw.mode == Some("or")
       then exists i :: 0 <= i < |raw.rules| && Means(raw.rules[i], sets, c, domain)
       else forall i :: 0 <= i < |raw.rules| ==> Means(raw.rules[i], sets, c, domain)) != raw.invert
    else (FieldsAdmit(raw.fields, c, domain) && SetsAdmit(raw, sets, c, domain)) != raw.invert
  }

  // ---------------------------------------------------------------- single tests

  lemma SuffixIs(domain: string, suffix: string)
    ensures SuffixMatches(domain, suffix) <==> SuffixOf(suffix, domain)
  {
    if EndsWith(domain, "." + suffix) {
      var n := |domain| - |suffix| - 1;
      assert domain == domain[..n] + domain[n..];
      assert domain == domain[..n] + "." + suffix;
    }
    forall below: string | domain == below + "." + suffix ensures EndsWith(domain, "." + suffix) {
      assert domain == below + ("." + suffix);
    }
  }

  lemma PartIs(s: string, part: string)
    ensures Contains(s, part) <==> PartOf(part, s)
  {
    if i :| 0 <= i <= |s| && OccursAt(s, part, i) {
      assert s == s[..i] + part + s[i + |part|..];
    }
    forall a: string, b: string | s == a + part + b ensures Contains(s, part) {
      assert s[|a|..|a| + |part|] == part;
      assert OccursAt(s, part, |a|);
    }
  }

  lemma TextIs(a: string, b: string)
    ensures EqIgnoreCase(a, b) <==> SameText(a, b)
  {
    if ToLower(a) == ToLower(b) {
      forall i | 0 <= i < |a| ensures Lower(a[i]) == Lower(b[i]) {
        assert ToLower(a)[i] == ToLower(b)[i];
      }
    }
  }

  lemma FieldIs(expected: seq<string>, actual: Option<string>)
    ensures MatchField(expected, actual) <==> Admits(expected, Of(actual), SameText)
  {
    hide EqIgnoreCase, SameText;
    forall a, b ensures EqIgnoreCase(a, b) <==> SameText(a, b) { TextIs(a, b); }
    if actual.Some? { assert Of(actual)[0] == actual.value; }
  }

  lemma ExactIs<T>(expected: seq<T>, actual: seq<T>, same: (T, T) -> bool)
    requires forall a: T, b: T :: same(a, b) <==> a == b
    ensures (expected == [] || exists j :: 0 <= j < |actual| && actual[j] in expected) <==>
      Admits(expected, actual, same)
  {
  }

  lemma RegexIs(regexes: seq<Regex>, actual: Option<string>)
    ensures MatchRegex(regexes, actual) <==> Admits(regexes, Of(actual), InRegex)
  {
    if actual.Some? { assert Of(actual)[0] == actual.value; }
  }

  lemma PortsIs(ranges: seq<(int, int)>, port: Option<int>)
    ensures MatchPorts(ranges, port) <==> Admits(ranges, Of(port), InRange)
  {
    if port.Some? { assert Of(port)[0] == port.value; }
  }

  lemma NetsIs(nets: seq<IpNet>, seen: seq<IpAddr>)
    ensures (|nets| == 0 || exists j :: 0 <= j < |seen| && AnyNet(nets, seen[j])) <==> Admits(nets, seen, InNet)
  {
    if |nets| > 0 && Admits(nets, seen, InNet) {
      var i, j :| 0 <= i < |nets| && 0 <= j < |seen| && InNet(nets[i], seen[j]);
      assert AnyNet(nets, seen[j]);
    }
  }

  lemma OneNet(nets: seq<IpNet>, ip: Option<IpAddr>)
    ensures (|nets| == 0 || (ip.Some? && AnyNet(nets, ip.value))) <==> Admits(nets, Of(ip), InNet)
  {
    hide AnyNet, Admits;
    NetsIs(nets, Of(ip));
    if ip.Some? { assert Of(ip)[0] == ip.value; }
  }

  /** A test of any candidate address, as a test of the candidates. */
  lemma AnyIs(c: Context, test: IpAddr -> bool)
    ensures c.AnyAddress(test) <==> exists j :: 0 <= j < |Candidates(c)| && test(Candidates(c)[j])
  {
    var all, n := Candidates(c), |c.destinationIps|;
    assert forall j :: 0 <= j < n ==> all[j] == c.destinationIps[j];
    if c.destinationIp.Some? { assert all[n] == c.destinationIp.value; }
  }

  lemma InterfaceIs(expected: map<string, seq<IpNet>>, seen: map<string, seq<IpAddr>>)
    ensures AddressMapMatches(expected, seen) <==> SomeInterface(expected, seen)
  {
    hide AnyNet, Admits;
    assert |expected| == 0 <==> expected.Keys == {} by { assert |expected| == |expected.Keys|; }
    forall name | name in expected && name in seen
      ensures (exists i :: 0 <= i < |seen[name]| && AnyNet(expected[name], seen[name][i])) <==>
              |expected[name]| > 0 && Admits(expected[name], seen[name], InNet)
    {
      NetsIs(expected[name], seen[name]);
      NoNetNothing(expected[name], seen[name]);
    }
  }

  lemma NoNetNothing(nets: seq<IpNet>, seen: seq<IpAddr>)
    ensures |nets| == 0 ==> !exists j :: 0 <= j < |seen| && AnyNet(nets, seen[j])
  {
  }

  // ---------------------------------------------------------------- groups of fields

  lemma DomainIs(f: Fields, domain: Option<string>)
    ensures MatchDomain(f, domain) <==> DomainAdmits(f, domain)
  {
    hide SuffixMatches, SuffixOf, Contains, PartOf;
    forall d, x ensures (SuffixMatches(d, x) <==> SuffixOf(x, d)) && (Contains(d, x) <==> PartOf(x, d)) {
      SuffixIs(d, x);
      PartIs(d, x);
    }
    RegexIs(f.regexes, domain);
    ExactIs(f.domains, Of(domain), SameString);
    if domain.Some? { assert Of(domain)[0] == domain.value; }
  }

  lemma AddressIs(f: Fields, c: Context)
    ensures MatchAddresses(f, c) <==> AddressAdmits(f, c)
  {
    hide AnyNet, Context.AnyAddress;
    AnyIs(c, ip => AnyNet(f.cidrs, ip));
    AnyIs(c, ip => AnyVersion(f.ipVersions, ip));
    AnyIs(c, ip => IsPrivate(ip));
    NetsIs(f.cidrs, Candidates(c));
    VersionsIs(f.ipVersions, Candidates(c));
  }

  lemma VersionsIs(versions: seq<int>, seen: seq<IpAddr>)
    ensures (versions == [] || exists j :: 0 <= j < |seen| && AnyVersion(versions, seen[j])) <==>
            Admits(versions, seen, Version)
  {
    if versions != [] && Admits(versions, seen, Version) {
      var i, j :| 0 <= i < |versions| && 0 <= j < |seen| && Version(versions[i], seen[j]);
      assert AnyVersion(versions, seen[j]);
    }
  }

  lemma PrivateIs(ip: Option<IpAddr>)
    ensures (ip.Some? && IsPrivate(ip.value)) <==> SomePrivate(Of(ip))
  {
    hide IsPrivate;
    if ip.Some? { assert Of(ip)[0] == ip.value; }
  }

  lemma TextOptionIs(expected: Option<string>, actual: Option<string>)
    ensures (expected.None? || (actual.Some? && EqIgnoreCase(expected.value, actual.value))) <==>
            Admits(Of(expected), Of(actual), SameText)
  {
    hide EqIgnoreCase, SameText;
    FieldIs(Of(expected), actual);
    if expected.Some? { assert Of(expected)[0] == expected.value; }
  }

  lemma ConnectionIs(f: Fields, c: Connection)
    ensures MatchConnection(f, c) <==> ConnectionAdmits(f, c)
  {
    hide Admits, MatchField, MatchPorts, AnyNet, IsPrivate, EqIgnoreCase, SomePrivate;
    OneNet(f.sourceCidrs, c.sourceIp);
    PrivateIs(c.sourceIp);
    PortsIs(f.sourcePorts, c.sourcePort);
    PortsIs(f.ports, c.destinationPort);
    FieldIs(f.networks, c.network);
    FieldIs(f.protocols, c.protocol);
    FieldIs(f.clients, c.client);
    OneString(f.inbounds, c.inbound);
    FieldIs(f.authUsers, c.authUser);
    TextOptionIs(f.clashMode, c.clashMode);
    ExactIs(f.preferredBy, c.preferredBy, SameString);
  }

  lemma OneString(expected: seq<string>, actual: Option<string>)
    ensures MatchExact(expected, actual) <==> Admits(expected, Of(actual), SameString)
  {
    ExactIs(expected, Of(actual), SameString);
    if actual.Some? { assert Of(actual)[0] == actual.value; }
  }

  lemma OneNumber(expected: seq<int>, actual: Option<int>)
    ensures (expected == [] || (actual.Some? && actual.value in expected)) <==> Admits(expected, Of(actual), SameNumber)
  {
    ExactIs(expected, Of(actual), SameNumber);
    if actual.Some? { assert Of(actual)[0] == actual.value; }
  }

  lemma MetadataIs(f: Fields, m: Metadata)
    ensures MatchMetadata(f, m) <==> MetadataAdmits(f, m)
  {
    hide Admits, MatchField, MatchExact, MatchRegex, AnyNet, AddressMapMatches, SomeInterface;
    FieldIs(f.processNames, m.processName);
    OneString(f.processPaths, m.processPath);
    RegexIs(f.processPathRegexes, m.processPath);
    FieldIs(f.packageNames, m.packageName);
    RegexIs(f.packageNameRegexes, m.packageName);
    FieldIs(f.users, m.user);
    OneNumber(f.userIds, m.userId);
    FieldIs(f.networkTypes, m.networkType);
    FieldIs(f.wifiSsids, m.wifiSsid);
    FieldIs(f.wifiBssids, m.wifiBssid);
    NetsIs(f.defaultInterfaceAddresses, m.defaultInterfaceAddresses);
    InterfaceIs(f.interfaceAddresses, m.interfaceAddresses);
    InterfaceIs(f.networkInterfaceAddresses, m.networkInterfaceAddresses);
    FieldIs(f.sourceMacAddresses, m.sourceMacAddress);
    FieldIs(f.sourceHostnames, m.sourceHostname);
  }

  /** The addresses that count as private, by prefix (RFC 1918, 3927, 4193 and 4291). */
  lemma PrivatePrefixes(a: int)
    ensures IsPrivate(V4(a)) <==>
            a / 0x100_0000 == 10 || a / 0x10_0000 == 0xac1 || a / 0x1_0000 == 0xc0a8
            || a / 0x100_0000 == 127 || a / 0x1_0000 == 0xa9fe || a == 0
    ensures IsPrivate(V6(a)) <==>
            || a / 0x200_0000_0000_0000_0000_0000_0000_0000 == 0x7e
            || a / 0x40_0000_0000_0000_0000_0000_0000_0000 == 0x3fa
            || a == 0 || a == 1
  {
  }

  // ---------------------------------------------------------------- compilation preserves meaning

  type RuleSets = map<string, seq<Rule>>

  ghost predicate SetsOk(sets: RuleSets) { forall tag :: tag in sets ==> AllWellCompiled(sets[tag]) }

  lemma {:induction false} BranchCompiled(raws: seq<RawRule>, sets: RuleSets, i: nat)
    requires SetsOk(sets) && CompileAll(raws, sets).Ok? && i < |raws|
    ensures Compile(raws[i], sets, false) == Ok(CompileAll(raws, sets).value[i])
    decreases |raws|
  {
    hide Compile, AllWellCompiled;
    if i > 0 {
      BranchCompiled(raws[1..], sets, i - 1);
    }
  }

  lemma SetsAre(raw: RawRule, sets: RuleSets, c: Context, domain: Option<string>)
    requires SetsOk(sets) && LookupSets(raw.ruleSetTags, sets).Ok?
    ensures
      var found := LookupSets(raw.ruleSetTags, sets).value;
      var seen := if raw.matchSource then c.ForSource() else c;
      (|found| == 0 ||
       exists s, i :: 0 <= s < |found| && 0 <= i < |found[s].rules| && Matches(found[s].rules[i], seen, domain))
      <==> SetsAdmit(raw, sets, c, domain)
  {
    hide Matches, AllWellCompiled;
    var found := LookupSets(raw.ruleSetTags, sets).value;
    var seen := if raw.matchSource then c.ForSource() else c;
    if raw.ruleSetTags != [] && SetsAdmit(raw, sets, c, domain) {
      var tag, i :|
        tag in raw.ruleSetTags && tag in sets && 0 <= i < |sets[tag]| && Matches(sets[tag][i], seen, domain);
      var s :| 0 <= s < |raw.ruleSetTags| && raw.ruleSetTags[s] == tag;
      assert Matches(found[s].rules[i], seen, domain);
    }
  }

  lemma PlainMeaning(raw: RawRule, sets: RuleSets, requireDecision: bool, c: Context, domain: Option<string>)
    requires SetsOk(sets) && Compile(raw, sets, requireDecision).Ok? && raw.kind != "logical"
    ensures Matches(Compile(raw, sets, requireDecision).value, c, domain) <==> Means(raw, sets, c, domain)
  {
    hide MatchDomain, MatchAddresses, MatchConnection, MatchMetadata, SetsAdmit, AllWellCompiled, CompileAll;
    hide DomainAdmits, AddressAdmits, ConnectionAdmits, MetadataAdmits, NeedsAddress, WellCompiled;
    DomainIs(raw.fields, domain);
    AddressIs(raw.fields, c);
    ConnectionIs(raw.fields, c.connection);
    MetadataIs(raw.fields, c.metadata);
    SetsAre(raw, sets, c, domain);
  }

  /** A compiled rule matches exactly when the configured rule holds, at every depth. */
  lemma {:induction false} CompilePreservesMeaning(
    raw: RawRule, sets: RuleSets, requireDecision: bool, c: Context, domain: Option<string>)
    requires SetsOk(sets) && Compile(raw, sets, requireDecision).Ok?
    ensures Matches(Compile(raw, sets, requireDecision).value, c, domain) <==> Means(raw, sets, c, domain)
    decreases raw
  {
    hide MatchDomain, MatchAddresses, MatchConnection, MatchMetadata, SetsAdmit, FieldsAdmit, AllWellCompiled;
    hide NeedsAddress, WellCompiled, CompileAll, LookupSets;
    if raw.kind != "logical" {
      PlainMeaning(raw, sets, requireDecision, c, domain);
    } else {
      var r := Compile(raw, sets, requireDecision).value;
      forall i | 0 <= i < |raw.rules|
        ensures Matches(r.logicalRules[i], c, domain) <==> Means(raw.rules[i], sets, c, domain)
      {
        BranchCompiled(raw.rules, sets, i);
        CompilePreservesMeaning(raw.rules[i], sets, false, c, domain);
      }
    }
  }

  /** Trailing dots go, capital letters become small, and nothing else changes. */
  lemma {:induction false} NormalizedName(s: string)
    ensures
      var r := NormalizeDomain(s);
      && |r| <= |s| && (forall i :: 0 <= i < |r| ==> r[i] == Lower(s[i]))
      && (forall i :: |r| <= i < |s| ==> s[i] == '.')
      && (r == [] || r[|r| - 1] != '.')
    decreases |s|
  {
    if |s| > 0 && s[|s| - 1] == '.' {
      NormalizedName(s[..|s| - 1]);
    }
  }

  // ---------------------------------------------------------------- laws of logical rules

  ghost predicate IsLogical(raw: RawRule, mode: string) {
    raw.kind == "logical" && raw.mode == Some(mode)
  }

  /** The branches compile on their own, and a compiled "or" matches like some, an "and" like all of them. */
  lemma LogicalIsBranches(raw: RawRule, sets: RuleSets, requireDecision: bool, c: Context, domain: Option<string>)
    requires SetsOk(sets) && Compile(raw, sets, requireDecision).Ok? && (IsLogical(raw, "or") || IsLogical(raw, "and"))
    ensures forall i :: 0 <= i < |raw.rules| ==> Compile(raw.rules[i], sets, false).Ok?
    ensures
      Matches(Compile(raw, sets, requireDecision).value, c, domain) <==>
      (if IsLogical(raw, "or")
       then exists i :: 0 <= i < |raw.rules| && Matches(Compile(raw.rules[i], sets, false).value, c, domain)
       else forall i :: 0 <= i < |raw.rules| ==> Matches(Compile(raw.rules[i], sets, false).value, c, domain))
      != raw.invert
  {
    hide Matches, Compile, SetsAdmit, FieldsAdmit;
    CompiledBranches(raw, sets, requireDecision);
    CompilePreservesMeaning(raw, sets, requireDecision, c, domain);
    forall i | 0 <= i < |raw.rules|
      ensures Matches(Compile(raw.rules[i], sets, false).value, c, domain) <==> Means(raw.rules[i], sets, c, domain)
    {
      CompilePreservesMeaning(raw.rules[i], sets, false, c, domain);
    }
  }

  lemma CompiledBranches(raw: RawRule, sets: RuleSets, requireDecision: bool)
    requires SetsOk(sets) && Compile(raw, sets, requireDecision).Ok?
    ensures forall i :: 0 <= i < |raw.rules| ==> Compile(raw.rules[i], sets, false).Ok?
    ensures CompileAll(raw.rules, sets).Ok?
  {
    hide AllWellCompiled, NeedsAddress, WellCompiled, LookupSets;
    forall i | 0 <= i < |raw.rules| ensures Compile(raw.rules[i], sets, false).Ok? {
      BranchCompiled(raw.rules, sets, i);
    }
  }

  function Inverted(raw: RawRule): RawRule { raw.(invert := !raw.invert) }

  function InvertedAll(raws: seq<RawRule>): (r: seq<RawRule>)
    ensures |r| == |raws| && forall i :: 0 <= i < |raws| ==> r[i] == Inverted(raws[i])
  {
    seq(|raws|, i requires 0 <= i < |raws| => Inverted(raws[i]))
  }

  lemma InvertedCompiles(raw: RawRule, sets: RuleSets, requireDecision: bool)
    requires SetsOk(sets)
    ensures Compile(raw, sets, requireDecision).Ok? <==> Compile(Inverted(raw), sets, requireDecision).Ok?
  {
    hide AllWellCompiled, NeedsAddress, WellCompiled, LookupSets, CompileAll;
  }

  lemma {:induction false} AllCompileIff(raws: seq<RawRule>, sets: RuleSets)
    requires SetsOk(sets)
    ensures CompileAll(raws, sets).Ok? <==> forall i :: 0 <= i < |raws| ==> Compile(raws[i], sets, false).Ok?
    decreases |raws|
  {
    hide Compile, AllWellCompiled;
    if |raws| > 0 {
      AllCompileIff(raws[1..], sets);
      assert forall i :: 1 <= i < |raws| ==> raws[i] == raws[1..][i - 1];
      if forall i :: 0 <= i < |raws| ==> Compile(raws[i], sets, false).Ok? {
        assert Compile(raws[0], sets, false).Ok?;
      }
    }
  }

  lemma {:induction false} InvertedMeans(raw: RawRule, sets: RuleSets, c: Context, domain: Option<string>)
    ensures Means(Inverted(raw), sets, c, domain) <==> !Means(raw, sets, c, domain)
  {
    hide FieldsAdmit;
    assert SetsAdmit(Inverted(raw), sets, c, domain) == SetsAdmit(raw, sets, c, domain);
  }

  /** "Not any of" is "all of the inverted": the one compiles when the other does, and they match alike. */
  lemma InvertedOrIsAnd(raw: RawRule, sets: RuleSets, requireDecision: bool, c: Context, domain: Option<string>)
    requires SetsOk(sets) && Compile(raw, sets, requireDecision).Ok? && IsLogical(raw, "or")
    ensures
      var other := raw.(mode := Some("and"), rules := InvertedAll(raw.rules), invert := !raw.invert);
      && Compile(other, sets, requireDecision).Ok?
      && (Matches(Compile(raw, sets, requireDecision).value, c, domain) <==>
          Matches(Compile(other, sets, requireDecision).value, c, domain))
  {
    hide Matches, SetsAdmit, FieldsAdmit, AllWellCompiled, NeedsAddress, WellCompiled, CompileAll, LookupSets;
    var other := raw.(mode := Some("and"), rules := InvertedAll(raw.rules), invert := !raw.invert);
    CompiledBranches(raw, sets, requireDecision);
    forall i | 0 <= i < |raw.rules| ensures Compile(other.rules[i], sets, false).Ok? {
      InvertedCompiles(raw.rules[i], sets, false);
    }
    AllCompileIff(other.rules, sets);
    assert Compile(other, sets, requireDecision).Ok?;
    hide Compile;
    CompilePreservesMeaning(raw, sets, requireDecision, c, domain);
    CompilePreservesMeaning(other, sets, requireDecision, c, domain);
    forall i | 0 <= i < |raw.rules|
      ensures Means(other.rules[i], sets, c, domain) <==> !Means(raw.rules[i], sets, c, domain)
    {
      InvertedMeans(raw.rules[i], sets, c, domain);
    }
  }

  // ---------------------------------------------------------------- an "or" rule is its branches

  /** The action of the first matching rule. */
  function FirstAction(rules: seq<Rule>, c: Context): Option<RuleAction> {
    var next := NextAction(rules, c, 0);
    if next.Some? then Some(rules[next.value].action) else None
  }

  ghost predicate Takes(rules: seq<Rule>, c: Context, i: nat) {
    && i < |rules| && Matches(rules[i], c, Normalized(c))
    && forall j :: 0 <= j < i ==> !Matches(rules[j], c, Normalized(c))
  }

  lemma FirstActionIs(rules: seq<Rule>, c: Context)
    ensures FirstAction(rules, c).Some? ==>
      exists i: nat :: Takes(rules, c, i) && FirstAction(rules, c).value == rules[i].action
    ensures FirstAction(rules, c).None? ==> forall j :: 0 <= j < |rules| ==> !Matches(rules[j], c, Normalized(c))
    ensures forall i: nat :: Takes(rules, c, i) ==> FirstAction(rules, c) == Some(rules[i].action)
  {
    hide Matches;
    var now := MatchVector(rules, c);
    assert forall j :: 0 <= j < |rules| ==> now[j] == Matches(rules[j], c, Normalized(c));
    var next := NextAction(rules, c, 0);
    if next.Some? { assert Takes(rules, c, next.value); }
  }

  lemma FirstActionConcat(a: seq<Rule>, b: seq<Rule>, c: Context)
    ensures FirstAction(a + b, c) == if FirstAction(a, c).Some? then FirstAction(a, c) else FirstAction(b, c)
  {
    hide Matches, FirstAction;
    FirstActionIs(a, c);
    FirstActionIs(b, c);
    FirstActionIs(a + b, c);
    if FirstAction(a, c).Some? {
      var i: nat :| Takes(a, c, i) && FirstAction(a, c).value == a[i].action;
      assert Takes(a + b, c, i);
    } else if FirstAction(b, c).Some? {
      var i: nat :| Takes(b, c, i) && FirstAction(b, c).value == b[i].action;
      assert Takes(a + b, c, |a| + i);
    }
  }

  lemma ActionIgnored(r: Rule, action: RuleAction, c: Context, domain: Option<string>)
    ensures Matches(r.(action := action), c, domain) == Matches(r, c, domain)
  {
    hide MatchDomain, MatchAddresses, MatchConnection, MatchMetadata;
  }

  function WithAction(rules: seq<Rule>, action: RuleAction): (r: seq<Rule>)
    ensures |r| == |rules| && forall i :: 0 <= i < |rules| ==> r[i] == rules[i].(action := action)
  {
    seq(|rules|, i requires 0 <= i < |rules| => rules[i].(action := action))
  }

  lemma OrAlone(r: Rule, c: Context)
    requires r.logicalMode == Some(Or) && !r.invert
    ensures FirstAction([r], c) == FirstAction(WithAction(r.logicalRules, r.action), c)
  {
    var branches, domain := WithAction(r.logicalRules, r.action), Normalized(c);
    assert Matches(r, c, domain) <==> exists i :: 0 <= i < |r.logicalRules| && Matches(r.logicalRules[i], c, domain);
    hide Matches, FirstAction;
    FirstActionIs([r], c);
    FirstActionIs(branches, c);
    forall i | 0 <= i < |branches| ensures Matches(branches[i], c, domain) == Matches(r.logicalRules[i], c, domain) {
      ActionIgnored(r.logicalRules[i], r.action, c, domain);
    }
    if Matches(r, c, domain) { assert Takes([r], c, 0); }
  }

  /**
   In a list of rules a configured "or" that is not inverted can be replaced by its branches, each
   with its action: every context gets the same action.
   */
  lemma OrIsItsBranches(raw: RawRule, sets: RuleSets, before: seq<Rule>, after: seq<Rule>, c: Context)
    requires SetsOk(sets) && Compile(raw, sets, true).Ok? && IsLogical(raw, "or") && !raw.invert
    ensures
      var r := Compile(raw, sets, true).value;
      && (forall i :: 0 <= i < |raw.rules| ==> Compile(raw.rules[i], sets, false) == Ok(r.logicalRules[i]))
      && FirstAction(before + [r] + after, c) == FirstAction(before + WithAction(r.logicalRules, r.action) + after, c)
  {
    hide Matches, FirstAction, AllWellCompiled, NeedsAddress, WellCompiled, LookupSets, CompileAll;
    var r := Compile(raw, sets, true).value;
    forall i | 0 <= i < |raw.rules| ensures Compile(raw.rules[i], sets, false) == Ok(r.logicalRules[i]) {
      BranchCompiled(raw.rules, sets, i);
    }
    OrAlone(r, c);
    var branches := WithAction(r.logicalRules, r.action);
    FirstActionConcat(before, [r], c);
    FirstActionConcat(before, branches, c);
    FirstActionConcat(before + [r], after, c);
    FirstActionConcat(before + branches, after, c);
  }

  // ---------------------------------------------------------------- what is accepted, and what an action does

  ghost predicate KindOk(raw: RawRule) {
    || raw.kind in ["", "default"]
    || (raw.kind == "logical" && |raw.rules| > 0 && raw.mode in [None, Some("and"), Some("or")])
  }

  /** The rule and its branches can be compiled, whatever they are to do. */
  ghost predicate Acceptable(raw: RawRule, sets: RuleSets)
    decreases raw
  {
    && !raw.legacyGeo && raw.fields.preferredBy == [] && KindOk(raw)
    && (forall tag :: tag in raw.ruleSetTags ==> tag in sets)
    && (forall i :: 0 <= i < |raw.rules| ==> Acceptable(raw.rules[i], sets))
  }

  /** An action is named, and a route says where to. */
  ghost predicate ActionOk(raw: RawRule) {
    || raw.action in [Some("reject"), Some("hijack-dns"), Some("direct"), Some("bypass")]
    || raw.action in [Some("route-options"), Some("sniff"), Some("resolve")]
    || (raw.action in [None, Some("route")] && raw.outbound.Some?)
  }

  lemma ModeIff(raw: RawRule)
    ensures CompileMode(raw).Ok? <==> KindOk(raw)
  {
    assert raw.mode.Some? ==> raw.mode == Some(raw.mode.value);
  }

  lemma ActionIff(raw: RawRule)
    ensures CompileAction(raw, true).Ok? <==> ActionOk(raw)
    ensures CompileAction(raw, false).Ok?
  {
    assert raw.action.Some? ==> raw.action == Some(raw.action.value);
  }

  lemma {:induction false} CompileAcceptsIff(raw: RawRule, sets: RuleSets, requireDecision: bool)
    requires SetsOk(sets)
    ensures Compile(raw, sets, requireDecision).Ok? <==> Acceptable(raw, sets) && (requireDecision ==> ActionOk(raw))
    decreases raw
  {
    hide AllWellCompiled, NeedsAddress, WellCompiled, LookupSets, CompileAll, CompileMode, CompileAction, KindOk,
      ActionOk;
    ModeIff(raw);
    ActionIff(raw);
    forall i | 0 <= i < |raw.rules|
      ensures Compile(raw.rules[i], sets, false).Ok? <==> Acceptable(raw.rules[i], sets)
    {
      CompileAcceptsIff(raw.rules[i], sets, false);
    }
    AllCompileIff(raw.rules, sets);
  }

  /** Fields that test nothing. */
  const NoFields := Fields(
    [], [], [], [], [], [], false, [], false, [], [], [], [], [], [], [], None, [], [], [], [], [], [], [], [],
    [], false, false, [], [], map[], map[], [], [], [])

  ghost predicate CatchAll(raw: RawRule) {
    && raw.kind == "" && raw.fields == NoFields && raw.ruleSetTags == [] && raw.rules == []
    && !raw.invert && !raw.legacyGeo
  }

  lemma CatchAllMatches(raw: RawRule, sets: RuleSets, c: Context, domain: Option<string>)
    requires SetsOk(sets) && CatchAll(raw) && Compile(raw, sets, true).Ok?
    ensures Matches(Compile(raw, sets, true).value, c, domain)
    ensures !Compile(raw, sets, true).value.requiresDestinationIp
  {
    assert raw.fields == NoFields;
  }

  /** What an evaluation with one rule, which matches, comes to. */
  lemma OneRuleDecides(env: RouteEvaluation.Env, destination: RouteEvaluation.Destination)
    requires RouteEvaluation.ValidEnv(env) && |env.rules| == 1
    requires
      var seen := RouteExplanation.Seen(env, destination, []);
      Matches(env.rules[0], seen, Normalized(seen))
    ensures
      RouteEvaluation.Evaluate(env, RouteEvaluation.Start(destination), []) ==
      match env.rules[0].action
      case Route(decision) => RouteEvaluation.Decided(decision, [0], [])
      case Resolve(_) =>
        if destination.Domain? && env.hasResolver then
          (match env.actionAnswer(0)
           case Err => RouteEvaluation.Failed
           case Ok(answer) => RouteEvaluation.Decided(Outbound(env.finalOutbound), [0], answer))
        else RouteEvaluation.Decided(Outbound(env.finalOutbound), [0], [])
      case _ => RouteEvaluation.Decided(Outbound(env.finalOutbound), [0], [])
  {
    hide Matches, WantsAddress, RouteEvaluation.Evaluate, RouteEvaluation.SelectAddress;
    var h, action := [RouteExplanation.Acted(0)], env.rules[0].action;
    assert h[..0] == [] && h[0] == RouteExplanation.Acted(0);
    assert RouteExplanation.AllJustified(env, destination, h);
    assert RouteExplanation.Passed(env, RouteExplanation.Seen(env, destination, h), 1, 1);
    assert RouteExplanation.ActedRules(h) == [0];
    var outcome := RouteEvaluation.Decided(if action.Route? then action.decision else Outbound(env.finalOutbound), [0],
      RouteExplanation.Seen(env, destination, h).destinationIps);
    if RouteExplanation.Fails(env, destination, [], h[0]) {
      outcome := RouteEvaluation.Failed;
    }
    assert RouteExplanation.Explains(env, destination, h, outcome);
    RouteExplanation.ExplanationDecides(env, destination, h, outcome);
  }

  /**
   What the text of an action makes of a connection, for a rule that catches everything. Actions that
   do not decide leave it to the final outbound.
   */
  lemma CatchAllDecides(env: RouteEvaluation.Env, raw: RawRule, sets: RuleSets,
    destination: RouteEvaluation.Destination)
    requires RouteEvaluation.ValidEnv(env) && SetsOk(sets) && CatchAll(raw)
    requires Compile(raw, sets, true).Ok? && env.rules == [Compile(raw, sets, true).value]
    ensures
      var outcome := RouteEvaluation.Evaluate(env, RouteEvaluation.Start(destination), []);
      && (raw.action == Some("reject") ==> outcome == RouteEvaluation.Decided(Reject, [0], []))
      && (raw.action == Some("hijack-dns") ==> outcome == RouteEvaluation.Decided(HijackDns, [0], []))
      && (raw.action == Some("direct") ==> outcome == RouteEvaluation.Decided(Outbound("direct"), [0], []))
      && (raw.action == Some("bypass") && raw.outbound.None? ==>
            outcome == RouteEvaluation.Decided(Outbound("direct"), [0], []))
      && (raw.action in [None, Some("route"), Some("bypass")] && raw.outbound.Some? ==>
            outcome == RouteEvaluation.Decided(Outbound(raw.outbound.value), [0], []))
      && (raw.action in [Some("route-options"), Some("sniff")] ==>
            outcome == RouteEvaluation.Decided(Outbound(env.finalOutbound), [0], []))
      && (raw.action == Some("resolve") ==>
            env.rules[0].action == Resolve(raw.strategy) &&
            outcome ==
              if destination.Domain? && env.hasResolver then
                match env.actionAnswer(0)
                case Err => RouteEvaluation.Failed
                case Ok(answer) => RouteEvaluation.Decided(Outbound(env.finalOutbound), [0], answer)
              else RouteEvaluation.Decided(Outbound(env.finalOutbound), [0], []))
  {
    hide Matches, RouteEvaluation.Evaluate, AllWellCompiled, WellCompiled, LookupSets, CompileAll, NeedsAddress;
    hide RouteExplanation.Seen;
    var seen := RouteExplanation.Seen(env, destination, []);
    CatchAllMatches(raw, sets, seen, Normalized(seen));
    OneRuleDecides(env, destination);
  }
}
