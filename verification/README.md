# Verified cores of xhttp-rs

This project models the algorithms inside the xhttp-rs proxy runtime and proves what they promise,
for all inputs, all runs, or all interleavings. `dafny verify dfyconfig.toml` checks everything.

- Routing: compiled rules (`RouteRules`) and what configured rules mean (`RuleMeaning`), first-match
  scanning (`RuleScan`), lazy lookup against an eager reference (`LazyRouting`), metadata scoping
  (`RouteMetadata`), the evaluation loop with its state (`RouteEvaluation`) and the histories that
  explain its decisions (`RouteExplanation`).
- DNS: the record walk and in-place TTL edits (`DnsMessage`) against written-out messages
  (`DnsRecords`), questions (`DnsQuery`), the cache (`DnsCache`) against a plain list (`LruSpec`),
  the singleflight protocol (`SingleFlight`) and the UDP multiplexer (`UdpMux`).
- SRS rule sets: varints and sections (`SrsReader`), the succinct trie decoder (`SuccinctTrie`), its
  encoder as a reference (`SuccinctEncoding`) and range splitting (`CidrSplit`).
- Transport: packet upload and reordering (`PacketUp`), session slots (`SessionSlots`) and their
  whole runs (`SessionRuns`), XMUX pools (`Xmux`), when they are opened (`XmuxOpening`), their
  accounts (`XmuxLeases`) and how far they can be exceeded (`XmuxOvershoot`), padding (`Padding`) and
  XUDP frames (`Xudp`).
- TUN: the UDP NAT table (`UdpNat`), the rule plan (`TunPlan`), where it sends packets
  (`TunVerdict`) and its installation (`TunRoutes`).

Code that updates things in place is a class or a method with loops, proved against a function or a
run. Concurrent code is a state machine whose steps are the sections the source runs under one lock,
and its results hold for every sequence of steps. Time, randomness, hash order, regular expressions,
CIDR tests, resolver answers, sniffing results and command failures are parameters or free choices.

## Where the code does not do what one would expect

Each of these is a theorem: a concrete input or run, and the condition.

- An inverted address rule matches while no address is known, so lazy and eager routing disagree on
  it (`LazyRouting.InvertedAddressRuleDisagrees`). They also disagree when an inverted test of
  anything but the domain stands beside an address test, although no address test is inverted: the
  domain test turns "no domain fields" into a refusal, so the router never asks for the address
  (`LazyRouting.InvertedPortRuleDisagrees`). `LazyRouting.LazyAgreesIff` says for any rules when a
  lookup agrees, rule by rule. The condition to check on the rules alone is `LazySafe`: a rule that
  needs an address tests nothing but the domain below an odd number of inversions. It is sufficient
  (`LazyRouting.LazyAgreesWithEager`) and not necessary, since a rule that can never match agrees
  whatever its shape.
- `range_to_cidrs` wraps past the last IPv6 address in a release build and then also emits `::/0`.
  `CidrSplit.SplitExactIff`: the output is exact unless the range is IPv6, ends at the last address
  and does not start at zero.
- XMUX limits are exceeded by callers that found a pool usable inside `pick` and charge it later.
  Concurrency overshoot stays below the number of such callers of the pool
  (`XmuxOvershoot.ConcurrencyBelow`); it does not stay below the number of callers that have left the
  scan, because one that scans while another charges counts only in the first number
  (`XmuxOvershoot.ScanningCallerExceeds`: with a cap of one and never more than one caller past the
  scan, two leases). Request overshoot stays below unless a packet, which charges a pool without
  picking, spends the last request while that many callers have found the pool usable and all of
  them charge; then it equals that number (`XmuxOvershoot.RequestsBelowIff`, with a run in
  `XmuxOvershoot.OvershootReached`).
- The UDP multiplexer reads the identifier from its whole buffer, so a datagram of fewer than two
  octets ends the query named by stale bytes (`UdpMux.EndedByUnnamedIff`, with a run in
  `UdpMux.EmptyDatagramEndsQuery`). And a query that gives up after it was answered late takes
  whoever holds its identifier by then out of the table (`UdpMux.WithdrawalTakesAnother`, with a run
  of 65537 allocations in `UdpMux.WithdrawalBreaksAnother`).
- Questions with more than 127 labels can be built and parsed but not stepped over
  (`DnsQuery.SkipAgreesIff`, with a name in `DnsQuery.NameOf128Labels`). Such a name takes more than
  the 255 octets that section 3.1 of RFC 1035 allows, which none of the three functions tests.

A fact about the XUDP writer alone, which no caller brings about because all of them abandon the
stream on an error: a payload over 65535 octets is refused only after the header was written, and a
reader would take the header of a next frame for that payload (`Xudp.PartialFrameMisread`).

## Model

| member | source | states |
|---|---|---|
| `RouteRules.Compile` | src/routing.rs:627-805 | a compiled rule's need-an-address flag, at every depth, is the one recomputed from its fields, logical rules and rule sets; every named rule set exists, and inversion and arity are kept (what the rule matches: `RuleMeaning.CompilePreservesMeaning`) |
| `RuleMeaning.CompilePreservesMeaning` | src/routing.rs:627-916 | a compiled rule, at every depth, matches exactly when its configuration holds: each configured field admits something seen, a rule set is tried on the source when it says so, "or" is some branch, "and" is every branch, and inversion negates |
| `RuleMeaning.CompileAcceptsIff` | src/routing.rs:627-735 | compilation accepts exactly the rules of a known kind and mode, logical ones with branches, without legacy or preferred-by fields, whose rule sets exist and whose branches are accepted; with an action, one that is known and, for a route, names its outbound |
| `RuleMeaning.LogicalIsBranches` | src/routing.rs:806-814 | the branches of a compiled logical rule compile on their own, and it matches like some ("or") or all ("and") of them, inverted if it says so |
| `RuleMeaning.InvertedOrIsAnd` | src/routing.rs:806-814 | an inverted "or" compiles and matches like the "and" of the inverted branches |
| `RuleMeaning.OrIsItsBranches` | src/routing.rs:351-372 | in any list of rules a configured "or" that is not inverted can be replaced by its branches with its action: every context gets the same action |
| `RuleMeaning.CatchAllDecides` | src/routing.rs:654-702 | what each action's text makes of a whole evaluation: reject, hijack, direct, bypass and route decide as named, options and sniff leave it to the final outbound, resolve reports its addresses or fails |
| `RuleMeaning.NormalizedName` | src/routing.rs:1106-1108 | normalizing a name drops exactly its trailing dots and lower-cases the rest |
| `RuleMeaning.PrivatePrefixes` | src/routing.rs:1226-1241 | the private addresses are those of the 10/8, 172.16/12, 192.168/16, loopback, link-local and unique-local networks, and the unspecified address |
| `RouteRules.RulesScope` | src/routing.rs:583-623 | the router's metadata scope covers the scope of each of its rules |
| `LazyRouting.FindActionLazy` | src/routing.rs:351-372 | the lazy lookup loop stops at the first rule from the cursor on that matches or must ask for an address |
| `LazyRouting.AddressIndependent` | src/routing.rs:723-733 | a rule whose flag is off matches the same whatever addresses are known |
| `LazyRouting.AddressSetDetermines` | src/routing.rs:806-916 | any rule, inverted or not, sees only the set of candidate addresses |
| `LazyRouting.MatchesMonotone` | src/routing.rs:806-916 | on a rule without address tests below an odd number of inversions, more addresses never end a match; without any below an even number, they never begin one |
| `LazyRouting.DomainOnlyExact` | src/routing.rs:480-513 | on a rule that tests nothing but the domain the domain test equals the full match, inversions included |
| `LazyRouting.DomainFieldsApproximate` | src/routing.rs:480-513 | on a rule that tests nothing but the domain below an odd number of inversions, the domain test accepts every domain that some context matches; with odd and even exchanged, only such domains |
| `LazyRouting.LazyAgreesIff` | src/routing.rs:351-372 | for any rules, context, cursor and answer: lazy lookup with resolve-and-retry equals first match on the context resolved up front if and only if no answer is wanted or given, or every rule up to the stop is taken, asked about or rightly skipped |
| `LazyRouting.LazyAgreesWithEager` | src/routing.rs:351-372 | if every compiled rule that needs an address tests nothing but the domain below an odd number of inversions: for any context, cursor and answer, lazy lookup selects the rule that first match selects on a context resolved up front |
| `LazyRouting.InversionFreeLazyAgrees` | src/routing.rs:351-372 | the same for every compiled rule list without inversion |
| `LazyRouting.InvertedAddressRuleDisagrees` | src/routing.rs:806-916 | an inverted IP-version rule is selected lazily and not eagerly |
| `LazyRouting.InvertedPortRuleDisagrees` | src/routing.rs:480-513 | "not port 80, and IPv4" on port 443 is selected eagerly and never lazily, though no address test is inverted |
| `LazyRouting.InvertedPortRuleCompiled` | src/routing.rs:723-733 | that rule carries the flags the compiler computes |
| `LazyRouting.FlagExact` | src/routing.rs:723-733 | a compiled rule needs an address if and only if some rule of its tree tests addresses |
| `LazyRouting.AsksOnlyIfTested` | src/routing.rs:351-372 | a lookup asks only when no address is known, and only at a rule that tests addresses and does not match without |
| `RuleScan.ScanAgreesIff` | src/routing.rs:351-372 | a scan that switches to resolved matches at the rule that asks selects the first resolved match if and only if it classified every rule it passed rightly |
| `RouteMetadata.CollectAgrees` | src/linux_route.rs:58-117 | scoped collection yields, on the scope, what full collection yields |
| `RouteMetadata.CollectsWhatIsReported` | src/linux_route.rs:58-117 | with everything in scope, each reported fact ends up in its own field, Wi-Fi names only on a Wi-Fi interface |
| `RouteMetadata.FieldScopeExact` | src/routing.rs:583-602 | a metadata group is in the scope of fields if and only if their tests of it can fail |
| `RouteMetadata.ScopeExact` | src/routing.rs:583-613 | a group is in the scope of a rule if and only if some rule of its tree tests it |
| `RouteMetadata.MatchesNonInterference` | src/routing.rs:806-916 | a rule, nested or inverted, cannot tell apart contexts whose metadata agree on its scope |
| `RouteMetadata.LookupNonInterference` | src/routing.rs:615-623 | contexts that agree on the router's scope get the same plain and lazy lookups |
| `RouteMetadata.ScopedCollectionSuffices` | src/linux_route.rs:58-117 | collecting only scoped metadata routes like collecting everything |
| `RouteEvaluation.RoundOf` | src/proxy/route.rs:203-252 | a round that continues moves the cursor on or makes the address set non-empty, which no round empties again: the loop's termination measure |
| `RouteEvaluation.EvaluateRoute` | src/proxy/route.rs:184-259 | the evaluation loop ends on every rule snapshot, sniff outcome and resolver behaviour, with the outcome of the reference rounds (what that is: `RouteExplanation.EvaluationExplained`) |
| `RouteEvaluation.SelectAddress` | src/proxy/route.rs:448-464 | the first address of the family asked for; without one, nothing for the two "only" strategies and the first address for the others |
| `RouteExplanation.EvaluationExplained` | src/proxy/route.rs:203-252 | every evaluation has a history in which each rule acted on or asked about is the first that matches or asks in what is known by then: the last name, protocol and client sniffed and what the last resolution found; the history ends with a route rule, which decides, with a failed resolve rule, or with no rule left, when the final outbound decides |
| `RouteExplanation.ExplanationDecides` | src/proxy/route.rs:203-252 | no other outcome has such a history |
| `RouteExplanation.DecisionFollowsRules` | src/proxy/route.rs:203-252 | rules are acted on in order; the first route rule acted on decides and ends the evaluation, otherwise the final outbound decides; it fails only at a resolve rule whose resolution fails |
| `RouteExplanation.NothingAsked` | src/proxy/route.rs:203-252 | an evaluation over compiled rules that test no address does not depend on what on-demand lookups would answer |
| `RouteEvaluation.LazyEvaluationAgreesWithEager` | src/proxy/route.rs:203-252 | whole evaluations of lazily safe rules from any destination, whatever sniffing finds and whatever resolve rules answer, if the on-demand lookups of the evaluation give one answer (or all fail): the same decision and the same rules acted on in the same order as resolving first and matching plainly throughout |
| `RouteEvaluation.EvaluationNonInterference` | src/proxy/route.rs:203-252 | whole evaluations depend on metadata only through the router's scope |
| `RouteEvaluation.ScopedEvaluationSuffices` | src/proxy/route.rs:203-252 | a whole evaluation with scoped metadata equals the one with all metadata |
| `DnsMessage.SkipNameLoop` | src/dns/message.rs:916-946 | a name ends behind a zero octet or a two-octet compression pointer; a label above 63 octets, a 128th label or a cut-off name is an error |
| `DnsMessage.FindTtlOffsets` | src/dns/message.rs:758-790 | the loops compute the walk whose meaning `DnsRecords.MessageWalk` states, or an error for a truncated message |
| `DnsRecords.MessageWalk` | src/dns/message.rs:758-790 | on any message written out from questions and records, with plain or compressed names, the walk returns exactly the records in order, each with its type, TTL and the place of that TTL; it fails exactly when a name has more than 127 labels, and ignores octets behind the message |
| `DnsRecords.AcceptedIsMessage` | src/dns/message.rs:758-790 | conversely, whatever the walk accepts is such a message with names of at most 127 labels, followed by some octets, and what it found are that message's records |
| `DnsMessage.EditTtls` | src/dns/message.rs:737-757 | aging and rewriting in place leave exactly the edited message, and the message as it was when it does not parse |
| `DnsRecords.EditedIsReencoded` | src/dns/message.rs:737-757 | an edited message is, octet for octet, the written-out message whose records other than OPT have the edited TTL and nothing else changed |
| `DnsMessage.EditedOnlyTtls` | src/dns/message.rs:737-757 | an octet that changes lies in the TTL field of a record that is not OPT |
| `DnsMessage.EditedReparses` | src/dns/message.rs:758-790 | parsing an edited message yields the same offsets and types, with the edited TTLs |
| `DnsMessage.EditsCompose` | src/dns/message.rs:737-757 | any two edits in a row are one edit |
| `DnsMessage.AgingComposes` | src/dns/message.rs:737-747 | aging by a and then b is aging by a + b, saturation included |
| `DnsMessage.ResponseTtlEdited` | src/dns/message.rs:725-736 | aging lowers the minimum TTL by exactly the elapsed time down to zero, rewriting sets it, and having no TTL is kept |
| `DnsQuery.BuildQuery` | src/dns/message.rs:339-362 | building fails exactly when a label is empty or longer than 63 octets or the client subnet does not parse, and else yields header, labels, type, class and subnet option |
| `DnsQuery.ParseQuestion` | src/dns/message.rs:8-34 | the parser's loop returns the labels up to the zero octet, the type and the end, or an error |
| `DnsQuery.ParsedIff` | src/dns/message.rs:8-34 | a question is parsed exactly from the messages that announce one and hold written-out UTF-8 labels, a zero octet, type and class behind the header, and it has that name, type and end |
| `DnsQuery.JoinSplit` | src/dns/message.rs:348-354 | joining the labels of any name gives the name back |
| `DnsQuery.QueryRoundTrip` | src/dns/message.rs:992-999 | every name that can be built, with or without a subnet, is parsed back with its type and the end of the question |
| `DnsRecords.BuiltQueryIsMessage` | src/dns/message.rs:339-405 | a built query is the written-out message with its identifier, recursion desired and no other flag, one question of class IN and, for a subnet, one OPT record of 1232 octets whose data reads as that family, prefix and cut-off address |
| `DnsQuery.SkipAgreesIff` | src/dns/message.rs:916-946 | the name skipper ends where the question parser ends if and only if the name has at most 127 labels |
| `DnsQuery.NameOf128Labels` | src/dns/message.rs:916-946 | a name of 255 octets in 128 labels that is built and parsed back and that the record walk refuses |
| `DnsQuery.QueryWalk` | src/dns/message.rs:375-405 | the record walk over a built query with at most 127 labels finds nothing but the OPT record of its subnet, and fails with more |
| `DnsCache.DnsCache.Get` | src/dns/cache.rs:133-156 | a lookup answers and reorders like the reference list, and drops the entry once expired |
| `DnsCache.DnsCache.Insert` | src/dns/cache.rs:158-178 | an insertion purges, stores and evicts like the reference list, within capacity and the queue limit |
| `DnsCache.DnsCache.PurgeExpired` | src/dns/cache.rs:180-198 | popping the expiry heap removes exactly the expired entries; stale heap tuples never touch a re-inserted key |
| `DnsCache.DnsCache.EvictLru` | src/dns/cache.rs:200-213 | popping the queue removes exactly the least recently used surplus; stale queue tuples evict nothing |
| `DnsCache.DnsCache.CompactLru` | src/dns/cache.rs:215-225 | compaction bounds the queue by max(8 * capacity, 64) and loses no entry |
| `DnsCache.SortedUses` | src/dns/cache.rs:215-225 | the rebuilt queue holds one current tuple per entry, sorted by access |
| `DnsCache.Replay` | src/dns/cache.rs:133-225 | every run of gets and inserts on a new cache answers like the reference list; before and after each operation it holds as many entries as the list, within capacity, and its queue is within max(8 * capacity, 64) |
| `LruSpec.RunByLastUse` | src/dns/cache.rs:133-225 | after any run the reference list is within capacity and ordered by last use, so what an insertion drops was used longest ago |
| `LruSpec.HitIsLastInsert` | src/dns/cache.rs:133-156 | after any run a hit returns the last value inserted under the key, aged by the time since, and never at or after its expiry |
| `LruSpec.HitIff` | src/dns/cache.rs:133-213 | in any run, from the operations alone: a lookup hits if and only if the key was inserted, neither the lookup nor a later insertion or lookup of it came at or after its expiry, and at no insertion since were as many as capacity other cached keys used later; it returns the last inserted addresses, or the response aged by the whole seconds since |
| `LruSpec.DroppedIsExpiredOrOldest` | src/dns/cache.rs:158-213 | after any run an operation on another key drops an entry only as an insertion that finds it expired or leaves a full cache in which every entry was used later |
| `SingleFlight.OneLoadPerKey` | src/dns/mod.rs:558-607 | at most one load per key is in progress in any reachable state |
| `SingleFlight.ReturnedIsLoaded` | src/dns/mod.rs:558-607 | whoever returns from a flight, leader or follower, returns what an earlier load step of that flight gave, for the returner's own key |
| `SingleFlight.LoadedOnce` | src/dns/mod.rs:558-607 | every flight has at most one load step in a run |
| `SingleFlight.SameOutcome` | src/dns/mod.rs:558-607 | all who return from one flight, at whatever times of a run, return the same outcome for the same key |
| `SingleFlight.ResultIsFinal` | src/dns/cache.rs:89-120 | a published result never changes |
| `SingleFlight.ListedHasLeader` | src/dns/mod.rs:558-607 | the table lists only keys whose leader has not finished |
| `SingleFlight.FollowerNeverStuck` | src/dns/cache.rs:101-120 | once its flight has notified, a follower can step, and each step brings it closer to returning the flight's result |
| `UdpMux.Allocate` | src/dns/transport.rs:255-268 | allocation fails if and only if all 65536 identifiers are pending, and else returns the first free one from the counter on, across its 32-bit wrap |
| `UdpMux.FirstFree` | src/dns/transport.rs:258-266 | unless all identifiers are taken, fewer than 65536 counter steps pass only taken ones and reach a free one |
| `UdpMux.DistinctIds` | src/dns/transport.rs:253-295 | in every run all unanswered queries are in the table, under different identifiers |
| `UdpMux.CompletedOnce` | src/dns/transport.rs:253-295 | in every run neither what a query was sent nor its outcome ever changes |
| `UdpMux.ReplyIsAnswer` | src/dns/transport.rs:211-295 | in every run a successful reply is a datagram that carried the query's current identifier while it was in the table, with the caller's identifier put back |
| `UdpMux.BeginsIff` | src/dns/transport.rs:253-268 | a query is registered, under an identifier that was free, if and only if it has two octets and some identifier is free |
| `UdpMux.DeliveredSucceeds` | src/dns/transport.rs:275-295 | once a datagram of two or more octets was delivered to a query it no longer times out; it can finish, with that datagram under the caller's identifier |
| `UdpMux.UnregisteredIff` | src/dns/transport.rs:211-295 | exactly which steps take a query out of the table |
| `UdpMux.EndedByUnnamedIff` | src/dns/transport.rs:233-243 | a datagram ends a query it does not name if and only if it is shorter than two octets and the stale bytes complete the identifier; the query then fails |
| `UdpMux.EmptyDatagramEndsQuery` | src/dns/transport.rs:233-243 | a reachable state in which an empty datagram ends a query |
| `UdpMux.WithdrawalTakesAnother` | src/dns/transport.rs:271-288 | giving up takes another query out of the table if and only if it holds the old identifier, which needs a late answer |
| `UdpMux.WithdrawalBreaksAnother` | src/dns/transport.rs:271-288 | a reachable state in which that happens |
| `SrsReader.UvarintRoundTrip` | src/srs.rs:55-68 | every 64-bit value is read back from its encoding, wherever it stands |
| `SrsReader.Reader.ReadUvarint` | src/srs.rs:55-68 | the cursor loop returns the value and stops behind its last octet, or fails on overlong or truncated input |
| `SrsReader.U64sRoundTrip` | src/srs.rs:254-262 | every word list is read back from its encoding |
| `SrsReader.Reader.ReadU64s` | src/srs.rs:254-262 | the counted loop returns all words, or fails when they are cut short |
| `SrsReader.Reader.ReadSuccinctKeys` | src/srs.rs:175-203 | reading a section yields the keys of the tree it describes, or an error |
| `SrsReader.SuccinctKeysRoundTrip` | src/srs.rs:175-203 | a section that encodes a trie is read as the trie's keys, to its last octet |
| `SrsReader.KeySetRoundTrip` | src/srs.rs:175-203 | for every finite key set there is a section read as exactly that set, each key once |
| `SuccinctTrie.PackBit` | src/srs.rs:309-313 | the bit test reads packed words back, and zero beyond them |
| `SuccinctTrie.DecodeLoop` | src/srs.rs:181-199 | the nested loops build the reference tree, or fail when the labels run out or are left over |
| `SuccinctTrie.AcceptedIsTree` | src/srs.rs:175-203 | accepted input describes a tree with one node more than labels, every child index above its parent's |
| `SuccinctTrie.UniqueParent` | src/srs.rs:175-203 | every node but the root has exactly one parent, before it |
| `SuccinctTrie.KeyCollector.CollectKeys` | src/srs.rs:315-330 | the recursion with its shared key buffer ends on every accepted tree, restores the buffer and appends the keys below the node |
| `SuccinctTrie.OneKeyPerMark` | src/srs.rs:315-330 | collection from any accepted input emits one key per marked node |
| `SuccinctEncoding.DecodeTrie` | src/srs.rs:175-203 | decoding the breadth-first encoding of any trie emits the trie's keys |
| `SuccinctEncoding.DecodeKeySet` | src/srs.rs:175-203 | every finite key set has an encoding that decodes to that set, each key once |
| `CidrSplit.RangeToCidrs` | src/srs.rs:342-375 | a range is accepted if and only if its ends are of one family and in order; the prefixes are aligned, adjacent and ascending, tile the range from end to end (with one `::/0` behind them when the addition wraps), rise strictly and then fall strictly in size, and number at most twice the width |
| `CidrSplit.TilesCover` | src/srs.rs:342-375 | adjacent aligned blocks cover exactly their interval |
| `CidrSplit.TilesAscend` | src/srs.rs:342-375 | the blocks are pairwise disjoint and ascending |
| `CidrSplit.SplitExactIff` | src/srs.rs:342-375 | the prefixes cover the range and nothing else if and only if the addition at the end does not wrap |
| `CidrSplit.LastAddressWraps` | src/srs.rs:372 | the last IPv6 address alone also yields `::/0` |
| `PacketUp.PacketUpload` | src/client.rs:146-178 | the upload numbers consecutive chunks of at most the buffer size that concatenate to the stream |
| `PacketUp.ReorderTask` | src/server.rs:286-309 | the reorder loop writes and gives up as the reference run does |
| `PacketUp.WrittenIsPrefix` | src/server.rs:286-309 | for any order and duplication, what is written is a prefix of the client's stream, held packets are later than the next and within the limit, and the session is given up only while holding that many |
| `PacketUp.FullDelivery` | src/server.rs:286-309 | when every packet arrives and the session is not given up, the whole stream is written and nothing is held |
| `PacketUp.GivenUpIff` | src/server.rs:289-305 | for any packets and limit: the session is given up if and only if some arrival is new, not below the least number still missing, and finds as many larger numbers arrived as the limit |
| `PacketUp.BoundedReorderingFits` | src/server.rs:289-305 | when each packet arrives only after all packets that are the limit or more before it, the session is never given up and the whole stream is written |
| `SessionSlots.CounterExact` | src/server.rs:390-441 | in every interleaving the counter equals mapped sessions plus outstanding slots and stays within the maximum |
| `SessionSlots.CounterFromStart` | src/server.rs:390-441 | from the start: sessions are within the maximum, and with no slot outstanding the counter is their number |
| `SessionSlots.ObtainedIsMapped` | src/server.rs:412-420 | a thread that obtains a session obtains the one in the map |
| `SessionSlots.RacersAgree` | src/server.rs:390-441 | racing creators of one id obtain the same session unless it was removed in between |
| `SessionRuns.RefusedIff` | src/server.rs:390-405 | in every run a thread is refused if and only if it looks up an id that is too long, or reserves while mapped sessions and outstanding slots have reached the maximum |
| `SessionRuns.TimerRemovesIff` | src/server.rs:424-434 | in every run the timer starts a removal if and only if its id is mapped and was not connected since it entered the map |
| `SessionRuns.LeavesOnlyBy` | src/server.rs:424-441 | in every run a session leaves the map only by a removal started on purpose or by a timer that found it not in use; if it is in use when it goes, that timer fired before it was connected |
| `SessionRuns.OrphanFreed` | src/server.rs:424-441 | after a timer found a session not in use, the next two steps of its thread, whatever runs between, unmap the id and give the slot back, unless another removal came first |
| `Xmux.ReuseWithinBudget` | src/xmux.rs:75-135 | in every interleaving a pool serves at most its sampled number of connections |
| `Xmux.PoolsWithinCap` | src/xmux.rs:75-135 | with mutually exclusive caps, pools that are not retired never exceed the connection cap |
| `Xmux.NeverStuck` | src/xmux.rs:55-135 | in every reachable state a thread can step, or waits for a pick whose thread can |
| `XmuxOpening.OpensBelowCap` | src/xmux.rs:75-110 | with exclusive caps, a pick that starts while fewer pools than the connection cap are not retired opens one or fails to, in every interleaving, and reuses none |
| `XmuxOpening.ReusesAtCap` | src/xmux.rs:75-110 | without a concurrency cap, a pick opens a pool only while fewer than the connection cap are not retired, or none if there is no cap |
| `XmuxOpening.PoolsOpened` | src/xmux.rs:75-135 | while no pool has retired and none failed to open, k decided picks have left exactly min(k, connection cap) pools |
| `XmuxOpening.OpensWhenFull` | src/xmux.rs:75-110 | without a connection cap, a pick opens a pool only if it is a connect that found every pool still not retired at the concurrency cap |
| `XmuxOpening.ReusedWasUsable` | src/xmux.rs:75-135 | a pool that a pick reuses was not retired when the pick started |
| `XmuxOpening.RetiresIff` | src/xmux.rs:80-90 | in every run a step retires a pool if and only if it looks at it and finds it past its deadline, out of requests or, for a pick, out of connections |
| `XmuxLeases.RunningExact` | src/xmux.rs:55-66 | in every interleaving a pool's running counter is the number of threads that hold a lease on it |
| `XmuxLeases.ConnectionsWithinSample` | src/xmux.rs:100-135 | in every interleaving the connections taken from a pool are at most the number sampled when it was created, unless that was zero |
| `XmuxOvershoot.ConcurrencyBelow` | src/xmux.rs:55-135 | for every pool and n: if at no time more than n connecting callers have found the pool usable inside `pick` and not yet charged it, its leases exceed the concurrency cap by less than n, so not at all when acquisition is one step |
| `XmuxOvershoot.ScanningCallerExceeds` | src/xmux.rs:75-135 | a run with a cap of one and never more than one caller past the scan that ends with two leases: callers still scanning must be counted |
| `XmuxOvershoot.RequestOvershootExact` | src/xmux.rs:55-135 | requests beyond the budget are exactly the charges of callers that had found the pool usable when its last request was spent; there are as many of these as just before, or one fewer if a caller's charge spent it |
| `XmuxOvershoot.RequestsBelowIff` | src/xmux.rs:164-205 | for every pool and n: if at no time more than n callers have found the pool usable inside `pick` and not yet charged it, its requests exceed the budget by at most n, and by less than n unless a packet spends the last request while there are n of them and all of them charge |
| `XmuxOvershoot.OvershootReached` | src/xmux.rs:164-205 | a run with never more than one such caller exceeds the request budget by one |
| `Padding.PaddingValue` | src/protocol.rs:148-164 | token-like padding stops within its capacity with Huffman length exactly as asked (one for zero), plain padding repeats X, and the receiver's check passes for every configured range that holds the length |
| `Padding.WindowHoldsAlphabet` | src/protocol.rs:152-157 | any 62 consecutive symbols hold every letter of the alphabet |
| `Padding.AnyWindow` | src/protocol.rs:152-157 | 62 symbols from any place of the alphabet on have 397 code bits |
| `Padding.CapacitySuffices` | src/protocol.rs:153-162 | half as many symbols again and eight always reach the length |
| `Xudp.Stream.WriteFrame` | src/vless.rs:442-467 | a frame is written whole, or refused with nothing written for a long domain, or refused with the header written for a long payload |
| `Xudp.Source.NextFrame` | src/vless.rs:378-413 | the reader takes one frame off the stream and nothing behind it, and tells an early end from a refused frame |
| `Xudp.Source.NextPacket` | src/vless.rs:485-497 | frames without payload are skipped until a packet, an end frame or an error |
| `Xudp.DestinationRoundTrip` | src/vless.rs:415-440 | every destination that can be encoded is parsed back |
| `Xudp.FrameRoundTrip` | src/vless.rs:378-413 | every frame is read back, leaving what follows it untouched |
| `Xudp.FramesRoundTrip` | src/vless.rs:378-413 | any frames written back to back, of any sessions and statuses, are read as the same frames with nothing left over |
| `Xudp.AcceptedIsFrame` | src/vless.rs:378-440 | whatever the reader accepts is a written frame, with or without destination and payload and with ignored octets behind the destination, followed by what it leaves |
| `Xudp.StreamRoundTrip` | src/vless.rs:469-497 | from any frames written back to back, of any sessions, the packet reader gets the packets before the first end frame in order, each with its own boundary, skips frames without payload, and then reports the end frame or the end of the stream |
| `Xudp.PartialFrameMisread` | src/vless.rs:458-464 | after a refused payload the next frame's header is read as that payload, for all frames |
| `UdpNat.UdpNatTable.TouchAndSender` | src/proxy/udp_nat.rs:83-108 | a send records the destination in its mapping and keeps the table within the limit |
| `UdpNat.UdpNatTable.ReclaimIfFull` | src/proxy/udp_nat.rs:113-124 | a full table loses its idle mappings or, if there are none, the oldest |
| `UdpNat.UdpNatTable.EvictLru` | src/proxy/udp_nat.rs:186-195 | the scan removes the mapping with the lowest generation |
| `UdpNat.UdpNatTable.AllowResponse` | src/proxy/udp_nat.rs:162-178 | the verdict is that of the table before the call, and an allowed response counts as a use |
| `UdpNat.UdpNatTable.Expire` | src/proxy/udp_nat.rs:180-184 | exactly the idle mappings go |
| `UdpNat.RunBounded` | src/proxy/udp_nat.rs:83-124 | in every run the table holds at most its limit of mappings (one for limit zero) |
| `UdpNat.OldestIsLeastRecentlyUsed` | src/proxy/udp_nat.rs:186-195 | in every run the lowest generation is the mapping whose last send or allowed response is earliest |
| `UdpNat.SurvivesNewMapping` | src/proxy/udp_nat.rs:113-124 | in every run a mapping survives a new one if and only if there is room, or some mapping was last used the timeout ago and this one was not, or none was and another was used longer ago |
| `UdpNat.SurvivesOthers` | src/proxy/udp_nat.rs:162-184 | in every run a send through an open mapping drops none, and a response or an expiry drops exactly the mappings last used the timeout ago |
| `UdpNat.AliveIsNotIdle` | src/proxy/udp_nat.rs:180-184 | in every run a mapping counts as alive if and only if its last send or allowed response was less than the timeout ago |
| `UdpNat.KeyAllowedIff` | src/proxy/udp_nat.rs:162-178 | in every run of calls a response is allowed if and only if its mapping is in the table, was last used less than the timeout ago and, per filtering behavior, the remote address or endpoint was sent to through it since it entered the table |
| `UdpNat.ResponseAllowedIff` | src/tun.rs:620-652 | in every run of datagrams: a response reaches a source through a flow if and only if the flow's mapping is live and, unless filtering is endpoint independent, that source sent, since the mapping entered the table, to a destination that shares the mapping and is alike to the remote for filtering |
| `UdpNat.StrictMappingDecides` | src/proxy/udp_nat.rs:67-81 | when mapping is at least as strict as filtering, a live mapping admits exactly the remotes alike to the destination that opened the flow, whatever else was sent; so with address and port dependent behavior its own destination only |
| `TunPlan.BuildActions` | src/tun_route_linux.rs:171-204 | a plan is built if and only if the rules of each family in use fit below priority 32766, and is then the reference plan |
| `TunPlan.BuildFamily` | src/tun_route_linux.rs:206-421 | the pushing loops append the family's routes and its rules with consecutive priorities |
| `TunPlan.ExclusionsComeFirst` | src/tun_route_linux.rs:260-421 | outside auto-redirect, in one family every exclusion has a smaller priority than the default-route test, and that than every TUN-table lookup |
| `TunPlan.PrioritiesUnique` | src/tun_route_linux.rs:206-421 | no two rules of a family share a priority |
| `TunPlan.PlanDistinctIff` | src/tun_route_linux.rs:171-421 | a plan names no action twice if and only if no family in use routes a prefix twice |
| `TunVerdict.PlanVerdict` | src/tun_route_linux.rs:171-421 | walking the plan's rules by priority sends every packet where the configuration says, whatever the main table holds: to the main table for a specific route, or for a default route if excluded by prefix, user or interface; else to the device if captured by source, user or interface and wanted by prefix; else onward; by mark under auto-redirect; refused for an absent family under strict routing |
| `TunRoutes.Install` | src/tun_route_linux.rs:49-83 | install succeeds if and only if every add works; else nothing of the plan is left |
| `TunRoutes.InstallConfigured` | src/tun_route_linux.rs:49-83 | from a configuration, install succeeds if and only if the rules of every family in use fit below the limit, none routes a prefix twice, and every add command works |
| `TunRoutes.LinuxTunRoutes.Replace` | src/tun_route_linux.rs:86-118 | the kernel holds the new plan and what is foreign, or on a failed add exactly what it held before |
| `TunRoutes.LinuxTunRoutes.Drop` | src/tun_route_linux.rs:122-133 | only foreign entries are left |
| `TunRoutes.Life` | src/tun_route_linux.rs:49-133 | install, any replacements with any add failures, and drop leave the kernel's own entries, less the first plan's |

## Left out

- RouteRules.Compile: starts from parsed fields; the refusal of malformed expressions, networks and ports is not modelled.
- TLS, ECH, AnyTLS, HTTP plumbing, the Clash API, relay loops and inbound handshakes: input and output around other libraries.
- JSON configuration, duration parsing, group selection and option merging: settled by reading one function each.
- Regular expressions, CIDR tests, name normalization, UTF-8 checking and the parsing of client subnets: arbitrary predicates, functions or results.
- Rules swapped during an evaluation: each evaluation uses one snapshot.
- Clocks: the cache's 64-bit access clock and the NAT's 64-bit generation do not wrap, and each call reads time once.
- The cache's expiry heap is a set from which a least element is popped; its array layout is not modelled. Snapshot and restore are left out.
- Cancellation of a singleflight leader; cancelled UDP queries are modelled.
- PacketUp.ReorderTask: backend writes succeed; a failed write only ends the loop.
- UdpNat.UdpNatTable.TouchAndSender: the sender handle kept beside a mapping is not modelled.
- SrsReader.Reader.ReadSuccinctKeys: reading octets allocates the announced length before it looks at the input (src/srs.rs:49-53); an announced length beyond the address space, which panics there, is an error here.
- TunRoutes.InstallConfigured: deletes do not fail.
- UdpMux.DistinctIds: holds for queries not yet answered; a query that already has its answer may share its identifier with a later one.
- CidrSplit.RangeToCidrs: the wrap-around of a release build is modelled; a debug build panics there.
- TunVerdict.PlanVerdict: the walk over policy rules is the kernel's as documented for `ip rule`: by priority, on to the next rule when a table has no route, and with a default route not counting for the suppressing rule.
- TunPlan.BuildFamily: rules are values, not argument strings; the additions to the rule index in auto-redirect mode do not wrap.
- TunRoutes.Install: deletes do not fail.
- TunRoutes.LinuxTunRoutes.Replace: deletes, and the adds that undo them, do not fail.
- TunRoutes.LinuxTunRoutes.Drop: deletes do not fail.
- TunRoutes.Life: deletes, and the adds that undo them, do not fail.
- RouteEvaluation.LazyEvaluationAgreesWithEager: the on-demand lookups of one evaluation give one answer, though resolve rules answer as they like; a name found by sniffing that then resolves differently on demand is not covered.
- LazyRouting.LazyAgreesWithEager: a sufficient condition on the rules, not a necessary one.
- Padding.PaddingValue: where the value is placed in a request is not modelled.
- SRS item types other than varints, word lists, succinct keys and ranges; zlib.
- DNS answers other than their TTLs: address and HTTPS record contents.
