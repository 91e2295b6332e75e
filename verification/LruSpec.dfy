/**
 The reference behaviour of the DNS cache (src/dns/cache.rs): a plain list of entries, least
 recently used first, with an expiry time on each entry.
 */
module LruSpec {
  import opened Basics
  import opened Octets
  import opened DnsMessage

  /** Instants and durations, in nanoseconds. */
  type Time = int
  const SECOND := 1_000_000_000

  datatype CacheKey =
    | Lookup(name: string, qtype: int, server: Option<string>, clientSubnet: Option<string>)
    | WireQuery(query: seq<byte>, upstream: string)
    | Ech(name: string)

  datatype CacheValue = Addresses(addresses: seq<IpAddr>) | Wire(response: seq<byte>)

  datatype Item = Item(key: CacheKey, value: CacheValue, expires: Time, inserted: Time)

  datatype Config = Config(capacity: nat, disableExpire: bool)

  /** A cached wire response is handed out with its TTLs lowered by the time it spent in the cache. */
  function Aged(value: CacheValue, inserted: Time, now: Time): CacheValue {
    match value
    case Addresses(_) => value
    case Wire(response) => Wire(Edited(response, Age(Min(Max(now - inserted, 0) / SECOND, U32_MAX))))
  }

  function Find(items: seq<Item>, key: CacheKey): (r: Option<Item>)
    ensures r.Some? ==> r.value in items && r.value.key == key
    ensures r.None? ==> forall x :: x in items ==> x.key != key
  {
    if items == [] then None else if items[0].key == key then Some(items[0]) else Find(items[1..], key)
  }

  function Without(items: seq<Item>, key: CacheKey): (r: seq<Item>)
    ensures forall x :: x in r <==> x in items && x.key != key
    ensures |r| <= |items|
  {
    if items == [] then []
    else if items[0].key == key then Without(items[1..], key)
    else [items[0]] + Without(items[1..], key)
  }

  function Live(items: seq<Item>, now: Time): (r: seq<Item>)
    ensures forall x :: x in r <==> x in items && now < x.expires
    ensures |r| <= |items|
  {
    if items == [] then []
    else if items[0].expires <= now then Live(items[1..], now)
    else [items[0]] + Live(items[1..], now)
  }

  /** Keep the `capacity` most recently used entries. */
  function Newest(items: seq<Item>, capacity: nat): (r: seq<Item>)
    ensures |r| == Min(|items|, capacity)
  {
    if |items| <= capacity then items else items[|items| - capacity..]
  }

  datatype Answer = Answer(items: seq<Item>, value: Option<CacheValue>)

  function Get(config: Config, items: seq<Item>, key: CacheKey, now: Time): Answer {
    match Find(items, key)
    case None => Answer(items, None)
    case Some(x) =>
      if !config.disableExpire && x.expires <= now then Answer(Without(items, key), None)
      else Answer(Without(items, key) + [x], Some(Aged(x.value, x.inserted, now)))
  }

  function Purged(config: Config, items: seq<Item>, now: Time): seq<Item> {
    if config.disableExpire then items else Live(items, now)
  }

  function Insert(config: Config, items: seq<Item>, key: CacheKey, value: CacheValue, ttl: nat, now: Time): seq<Item> {
    Newest(Without(Purged(config, items, now), key) + [Item(key, value, now + ttl, now)], config.capacity)
  }

  // ---------------------------------------------------------------- whole runs

  datatype Op =
    | GetOp(key: CacheKey, now: Time)
    | InsertOp(key: CacheKey, now: Time, value: CacheValue, ttl: nat)

  function Apply(config: Config, items: seq<Item>, op: Op): Answer {
    match op
    case GetOp(key, now) => Get(config, items, key, now)
    case InsertOp(key, now, value, ttl) => Answer(Insert(config, items, key, value, ttl, now), None)
  }

  /** The list after a run of operations on an empty cache. */
  function Run(config: Config, ops: seq<Op>): seq<Item>
    decreases |ops|
  {
    if ops == [] then [] else Apply(config, Run(config, ops[..|ops| - 1]), ops[|ops| - 1]).items
  }

  /** The value each operation of the run returned. */
  function Replies(config: Config, ops: seq<Op>): (r: seq<Option<CacheValue>>)
    ensures |r| == |ops|
    decreases |ops|
  {
    if ops == [] then []
    else Replies(config, ops[..|ops| - 1]) + [Apply(config, Run(config, ops[..|ops| - 1]), ops[|ops| - 1]).value]
  }

  lemma RunEmpty(config: Config)
    ensures Run(config, []) == [] && Replies(config, []) == []
  {
  }

  lemma RunAppend(config: Config, ops: seq<Op>, op: Op)
    ensures Run(config, ops + [op]) == Apply(config, Run(config, ops), op).items
    ensures Replies(config, ops + [op]) == Replies(config, ops) + [Apply(config, Run(config, ops), op).value]
  {
    assert (ops + [op])[..|ops|] == ops;
  }

  /** The position of the last operation on `key`, or -1. */
  function LastUse(ops: seq<Op>, key: CacheKey): (i: int)
    ensures -1 <= i < |ops|
    ensures i >= 0 ==> ops[i].key == key
    ensures forall j :: i < j < |ops| ==> ops[j].key != key
  {
    if ops == [] then -1
    else if ops[|ops| - 1].key == key then |ops| - 1
    else LastUse(ops[..|ops| - 1], key)
  }

  /** Positions in the list follow the last use of each key: the front was used longest ago. */
  ghost predicate ByLastUse(items: seq<Item>, ops: seq<Op>) {
    forall i, j :: 0 <= i < j < |items| ==> LastUse(ops, items[i].key) < LastUse(ops, items[j].key)
  }

  lemma {:induction false} WithoutKeepsOrder(items: seq<Item>, ops: seq<Op>, key: CacheKey)
    requires ByLastUse(items, ops)
    ensures ByLastUse(Without(items, key), ops)
    decreases |items|
  {
    if items != [] {
      WithoutKeepsOrder(items[1..], ops, key);
      ConsKeepsOrder(items, Without(items[1..], key), ops);
    }
  }

  lemma {:induction false} LiveKeepsOrder(items: seq<Item>, ops: seq<Op>, now: Time)
    requires ByLastUse(items, ops)
    ensures ByLastUse(Live(items, now), ops)
    decreases |items|
  {
    if items != [] {
      LiveKeepsOrder(items[1..], ops, now);
      ConsKeepsOrder(items, Live(items[1..], now), ops);
    }
  }

  lemma ConsKeepsOrder(items: seq<Item>, rest: seq<Item>, ops: seq<Op>)
    requires items != [] && ByLastUse(items, ops) && ByLastUse(rest, ops)
    requires forall x :: x in rest ==> x in items[1..]
    ensures ByLastUse([items[0]] + rest, ops)
  {
    forall j | 0 <= j < |rest| ensures LastUse(ops, items[0].key) < LastUse(ops, rest[j].key) {
      assert rest[j] in items[1..];
    }
  }

  /** A further operation on `key` only matters for `key`. */
  lemma ExtendRun(items: seq<Item>, ops: seq<Op>, op: Op)
    requires ByLastUse(items, ops) && forall x :: x in items ==> x.key != op.key
    ensures ByLastUse(items, ops + [op])
    ensures forall x :: x in items ==> LastUse(ops + [op], x.key) == LastUse(ops, x.key)
    ensures LastUse(ops + [op], op.key) == |ops|
  {
    assert (ops + [op])[..|ops|] == ops;
  }

  lemma AppendUsed(items: seq<Item>, ops: seq<Op>, op: Op, x: Item)
    requires ByLastUse(items, ops) && (forall y :: y in items ==> y.key != op.key) && x.key == op.key
    ensures ByLastUse(items + [x], ops + [op])
  {
    ExtendRun(items, ops, op);
  }

  lemma {:induction false} WithoutLess(items: seq<Item>, key: CacheKey)
    ensures Find(items, key).Some? ==> |Without(items, key)| < |items|
    ensures Find(items, key).None? ==> Without(items, key) == items
    decreases |items|
  {
    if items != [] {
      WithoutLess(items[1..], key);
    }
  }

  lemma GetKeepsOrder(config: Config, items: seq<Item>, ops: seq<Op>, op: Op)
    requires op.GetOp? && ByLastUse(items, ops)
    ensures ByLastUse(Get(config, items, op.key, op.now).items, ops + [op])
    ensures |Get(config, items, op.key, op.now).items| <= |items|
  {
    WithoutKeepsOrder(items, ops, op.key);
    WithoutLess(items, op.key);
    var rest := Without(items, op.key);
    ExtendRun(rest, ops, op);
    if Find(items, op.key).Some? {
      AppendUsed(rest, ops, op, Find(items, op.key).value);
    }
  }

  lemma InsertKeepsOrder(config: Config, items: seq<Item>, ops: seq<Op>, op: Op)
    requires op.InsertOp? && ByLastUse(items, ops)
    ensures ByLastUse(Insert(config, items, op.key, op.value, op.ttl, op.now), ops + [op])
  {
    hide Without, Live, LastUse;
    InsertKeepsOrderBefore(config, items, ops, op);
  }

  /**
   After any run the list is ordered by last use and within capacity, so the entries an
   insertion drops are exactly the ones used longest ago.
   */
  lemma {:induction false} RunByLastUse(config: Config, ops: seq<Op>)
    ensures ByLastUse(Run(config, ops), ops)
    ensures |Run(config, ops)| <= config.capacity
    decreases |ops|
  {
    hide Get, Without, Live, LastUse;
    if ops != [] {
      var before, op := ops[..|ops| - 1], ops[|ops| - 1];
      assert before + [op] == ops;
      RunByLastUse(config, before);
      match op
      case GetOp(_, _) => GetKeepsOrder(config, Run(config, before), before, op);
      case InsertOp(_, _, _, _) => InsertKeepsOrder(config, Run(config, before), before, op);
    }
  }

  // ---------------------------------------------------------------- what is held, and what is dropped

  /** The position of the last insertion of `key`, or -1. */
  function LastInsert(ops: seq<Op>, key: CacheKey): (i: int)
    ensures -1 <= i < |ops|
    ensures i >= 0 ==> ops[i].InsertOp? && ops[i].key == key
  {
    if ops == [] then -1
    else if ops[|ops| - 1].InsertOp? && ops[|ops| - 1].key == key then |ops| - 1
    else LastInsert(ops[..|ops| - 1], key)
  }

  function ItemOf(op: Op): Item
    requires op.InsertOp?
  {
    Item(op.key, op.value, op.now + op.ttl, op.now)
  }

  /** Nothing enters the list but what an insertion inserts. */
  lemma AppliedItem(config: Config, items: seq<Item>, op: Op, x: Item)
    requires x in Apply(config, items, op).items
    ensures x in items || (op.InsertOp? && x == ItemOf(op))
    ensures op.InsertOp? && x.key == op.key ==> x == ItemOf(op)
  {
    hide Without, Live, Find;
  }

  /** In every run an entry is the last insertion of its key, with its value and times. */
  lemma {:induction false} HeldIsLastInsert(config: Config, ops: seq<Op>, x: Item)
    requires x in Run(config, ops)
    ensures LastInsert(ops, x.key) >= 0 && x == ItemOf(ops[LastInsert(ops, x.key)])
    decreases |ops|
  {
    hide Apply;
    var before, op := ops[..|ops| - 1], ops[|ops| - 1];
    AppliedItem(config, Run(config, before), op, x);
    if x in Run(config, before) {
      HeldIsLastInsert(config, before, x);
    }
  }

  /** A hit answers with the last insertion of the key, aged by the time since, and not after its expiry. */
  lemma HitIsLastInsert(config: Config, ops: seq<Op>, key: CacheKey, now: Time)
    requires Get(config, Run(config, ops), key, now).value.Some?
    ensures
      var i := LastInsert(ops, key);
      && i >= 0
      && Get(config, Run(config, ops), key, now).value == Some(Aged(ops[i].value, ops[i].now, now))
      && (!config.disableExpire ==> now < ops[i].now + ops[i].ttl)
  {
    hide Run, Without, Aged, LastInsert;
    HeldIsLastInsert(config, ops, Find(Run(config, ops), key).value);
  }

  /**
   An operation on another key drops an entry only as an insertion that finds it expired, or that
   leaves a full cache in which every entry was used later.
   */
  lemma DroppedIsExpiredOrOldest(config: Config, ops: seq<Op>, op: Op, x: Item)
    requires x in Run(config, ops) && x.key != op.key && x !in Run(config, ops + [op])
    ensures op.InsertOp?
    ensures (!config.disableExpire && x.expires <= op.now) ||
            (&& |Run(config, ops + [op])| == config.capacity
             && forall y :: y in Run(config, ops + [op]) ==> LastUse(ops + [op], x.key) < LastUse(ops + [op], y.key))
  {
    hide Run, LastUse, Newest, ByLastUse, Without, Live, Find;
    RunAppend(config, ops, op);
    RunByLastUse(config, ops);
    if op.InsertOp? {
      var live := Purged(config, Run(config, ops), op.now);
      var all := Without(live, op.key) + [ItemOf(op)];
      InsertKeepsOrderBefore(config, Run(config, ops), ops, op);
      if x in live {
        assert x in all;
        CutOldest(all, ops + [op], config.capacity, x);
      }
    }
  }

  /** Keeping the newest drops entries used before all that stay. */
  lemma CutOldest(items: seq<Item>, ops: seq<Op>, capacity: nat, x: Item)
    requires ByLastUse(items, ops) && x in items && x !in Newest(items, capacity)
    ensures |Newest(items, capacity)| == capacity
    ensures forall y :: y in Newest(items, capacity) ==> LastUse(ops, x.key) < LastUse(ops, y.key)
  {
    hide LastUse;
    var kept := Newest(items, capacity);
    var i :| 0 <= i < |items| && items[i] == x;
    assert forall k :: |items| - |kept| <= k < |items| ==> items[k] == kept[k - (|items| - |kept|)];
    forall y | y in kept ensures LastUse(ops, x.key) < LastUse(ops, y.key) {
      var j :| 0 <= j < |kept| && kept[j] == y;
      assert items[|items| - |kept| + j] == y;
    }
  }

  /** The list is in order before an insertion cuts it down, too. */
  lemma InsertKeepsOrderBefore(config: Config, items: seq<Item>, ops: seq<Op>, op: Op)
    requires op.InsertOp? && ByLastUse(items, ops)
    ensures ByLastUse(Without(Purged(config, items, op.now), op.key) + [ItemOf(op)], ops + [op])
  {
    hide Without, Live, LastUse;
    LiveKeepsOrder(items, ops, op.now);
    var live := Purged(config, items, op.now);
    WithoutKeepsOrder(live, ops, op.key);
    AppendUsed(Without(live, op.key), ops, op, ItemOf(op));
  }

  // ---------------------------------------------------------------- when a lookup hits

  function KeysOf(ops: seq<Op>): set<CacheKey> {
    set j | 0 <= j < |ops| :: ops[j].key
  }

  /** The last insertion of the key is not expired at `now`. */
  predicate FreshAt(config: Config, ops: seq<Op>, key: CacheKey, now: Time) {
    var i := LastInsert(ops, key);
    i >= 0 && (config.disableExpire || now < ops[i].now + ops[i].ttl)
  }

  /** An insertion looks at every entry, a lookup at its own. */
  predicate LooksAt(op: Op, key: CacheKey) {
    op.InsertOp? || op.key == key
  }

  /**
   What the operations alone say about a key being in the cache: it was inserted, it was not expired
   at any later operation that looked at it, and at no insertion since were there `capacity` rivals.
   */
  ghost predicate Cached(config: Config, ops: seq<Op>, key: CacheKey)
    decreases |ops|, 2
  {
    LastInsert(ops, key) >= 0 && StayedFresh(config, ops, key) && NeverCrowded(config, ops, key)
  }

  ghost predicate StayedFresh(config: Config, ops: seq<Op>, key: CacheKey) {
    forall j :: LastInsert(ops, key) < j < |ops| && LooksAt(ops[j], key) ==> FreshAt(config, ops, key, ops[j].now)
  }

  ghost predicate NeverCrowded(config: Config, ops: seq<Op>, key: CacheKey)
    decreases |ops|, 1
  {
    forall j :: Max(LastInsert(ops, key), 0) <= j < |ops| && ops[j].InsertOp? ==> Roomy(config, ops[..j], ops[j], key)
  }

  ghost predicate Roomy(config: Config, ops: seq<Op>, op: Op, key: CacheKey)
    decreases |ops|, 4
  {
    |Rivals(config, ops, op, key)| < config.capacity
  }

  /** The other cached keys used since the last use of `key`, when `op` is the next operation. */
  ghost function Rivals(config: Config, ops: seq<Op>, op: Op, key: CacheKey): set<CacheKey>
    decreases |ops|, 3
  {
    set k | k in KeysOf(ops + [op]) && LastUse(ops + [op], key) < LastUse(ops + [op], k)
            && (k == op.key || (Cached(config, ops, k) && FreshAt(config, ops, k, op.now)))
  }

  lemma LastsAppend(ops: seq<Op>, op: Op, key: CacheKey)
    ensures LastUse(ops + [op], key) == if op.key == key then |ops| else LastUse(ops, key)
    ensures LastInsert(ops + [op], key) == if op.InsertOp? && op.key == key then |ops| else LastInsert(ops, key)
  {
    assert (ops + [op])[..|ops|] == ops;
  }

  lemma FreshAppend(config: Config, ops: seq<Op>, op: Op, key: CacheKey, now: Time)
    requires !(op.InsertOp? && op.key == key)
    ensures FreshAt(config, ops + [op], key, now) == FreshAt(config, ops, key, now)
  {
    LastsAppend(ops, op, key);
  }

  lemma NoRivals(config: Config, ops: seq<Op>, op: Op)
    ensures Rivals(config, ops, op, op.key) == {}
  {
    hide Cached, FreshAt;
    LastsAppend(ops, op, op.key);
  }

  lemma StayedFreshAppend(config: Config, ops: seq<Op>, op: Op, key: CacheKey)
    requires !(op.InsertOp? && op.key == key)
    ensures StayedFresh(config, ops + [op], key) <==>
            StayedFresh(config, ops, key) && (LooksAt(op, key) ==> FreshAt(config, ops, key, op.now))
  {
    hide FreshAt, LastInsert, LooksAt;
    var all, n := ops + [op], |ops|;
    LastsAppend(ops, op, key);
    forall now: Time ensures FreshAt(config, all, key, now) == FreshAt(config, ops, key, now) {
      FreshAppend(config, ops, op, key, now);
    }
    assert all[n] == op;
    assert forall j :: 0 <= j < n ==> all[j] == ops[j];
  }

  lemma NeverCrowdedAppend(config: Config, ops: seq<Op>, op: Op, key: CacheKey)
    requires !(op.InsertOp? && op.key == key)
    ensures NeverCrowded(config, ops + [op], key) <==>
            NeverCrowded(config, ops, key) && (op.InsertOp? ==> Roomy(config, ops, op, key))
  {
    hide LastInsert, Roomy;
    var all, n := ops + [op], |ops|;
    LastsAppend(ops, op, key);
    assert all[..n] == ops && all[n] == op;
    forall j | 0 <= j < n ensures all[..j] == ops[..j] && all[j] == ops[j] {
    }
  }

  lemma OwnInsertCached(config: Config, ops: seq<Op>, op: Op)
    requires op.InsertOp?
    ensures Cached(config, ops + [op], op.key) <==> config.capacity > 0
  {
    hide Rivals, FreshAt, LastInsert;
    var all, n := ops + [op], |ops|;
    LastsAppend(ops, op, op.key);
    NoRivals(config, ops, op);
    assert all[..n] == ops && all[n] == op;
    assert Roomy(config, all[..n], all[n], op.key) <==> config.capacity > 0;
  }

  /** How one more operation changes what is cached. */
  lemma CachedAppend(config: Config, ops: seq<Op>, op: Op, key: CacheKey)
    requires !(op.InsertOp? && op.key == key)
    ensures Cached(config, ops + [op], key) <==>
            && Cached(config, ops, key)
            && (LooksAt(op, key) ==> FreshAt(config, ops, key, op.now))
            && (op.InsertOp? ==> Roomy(config, ops, op, key))
  {
    hide StayedFresh, NeverCrowded, Roomy, FreshAt, LastInsert, LooksAt;
    LastsAppend(ops, op, key);
    StayedFreshAppend(config, ops, op, key);
    NeverCrowdedAppend(config, ops, op, key);
  }

  /** The key has an entry in the list. */
  predicate InList(items: seq<Item>, key: CacheKey) { Find(items, key).Some? }

  lemma InListIff(items: seq<Item>, key: CacheKey)
    ensures InList(items, key) <==> exists x :: x in items && x.key == key
  {
  }

  /** The entry of a cached key expires when its last insertion says. */
  lemma EntryFresh(config: Config, ops: seq<Op>, x: Item, now: Time)
    requires x in Run(config, ops)
    ensures FreshAt(config, ops, x.key, now) <==> config.disableExpire || now < x.expires
  {
    hide Run, LastInsert;
    HeldIsLastInsert(config, ops, x);
  }

  function KeysIn(items: seq<Item>): set<CacheKey> { set x | x in items :: x.key }

  lemma {:induction false} KeySet(items: seq<Item>, ops: seq<Op>)
    requires ByLastUse(items, ops)
    ensures |KeysIn(items)| == |items|
    decreases |items|
  {
    hide LastUse;
    if items != [] {
      var tail := items[1..];
      KeySet(tail, ops);
      assert items == [items[0]] + tail;
      assert items[0].key !in KeysIn(tail);
      assert KeysIn(items) == KeysIn(tail) + {items[0].key};
    }
  }

  /** The keys of the list used later than `key`. */
  function Later(items: seq<Item>, ops: seq<Op>, key: CacheKey): set<CacheKey> {
    set x | x in items && LastUse(ops, key) < LastUse(ops, x.key) :: x.key
  }

  lemma LaterIsBehind(items: seq<Item>, ops: seq<Op>, p: nat)
    requires ByLastUse(items, ops) && p < |items|
    ensures Later(items, ops, items[p].key) == KeysIn(items[p + 1..])
    ensures |Later(items, ops, items[p].key)| == |items| - p - 1
  {
    hide LastUse;
    var behind := items[p + 1..];
    KeySet(behind, ops);
    forall x | x in items && LastUse(ops, items[p].key) < LastUse(ops, x.key) ensures x in behind {
      var j :| 0 <= j < |items| && items[j] == x;
      assert p < j && behind[j - p - 1] == x;
    }
    forall x | x in behind ensures x in items && LastUse(ops, items[p].key) < LastUse(ops, x.key) {
      var j :| 0 <= j < |behind| && behind[j] == x;
      assert items[p + 1 + j] == x;
    }
  }

  lemma NewestAt(items: seq<Item>, capacity: nat, x: Item)
    ensures x in Newest(items, capacity) <==> exists j :: Max(|items| - capacity, 0) <= j < |items| && items[j] == x
  {
    var kept := Newest(items, capacity);
    var cut := |items| - |kept|;
    assert kept == items[cut..];
    if x in kept {
      var j :| 0 <= j < |kept| && kept[j] == x;
      assert items[cut + j] == x;
    }
    if j :| cut <= j < |items| && items[j] == x {
      assert kept[j - cut] == x;
    }
  }

  /** The newest entries are those with fewer than `capacity` entries used later. */
  lemma NewestIff(items: seq<Item>, ops: seq<Op>, capacity: nat, p: nat)
    requires ByLastUse(items, ops) && p < |items|
    ensures (exists x :: x in Newest(items, capacity) && x.key == items[p].key) <==>
            |Later(items, ops, items[p].key)| < capacity
  {
    hide LastUse, Later, Newest;
    LaterIsBehind(items, ops, p);
    NewestAt(items, capacity, items[p]);
    forall x | x in Newest(items, capacity) && x.key == items[p].key ensures x == items[p] && p >= |items| - capacity {
      NewestAt(items, capacity, x);
      var j :| Max(|items| - capacity, 0) <= j < |items| && items[j] == x;
      SamePlace(items, ops, p, j);
    }
  }

  lemma SamePlace(items: seq<Item>, ops: seq<Op>, i: nat, j: nat)
    requires ByLastUse(items, ops) && i < |items| && j < |items| && items[i].key == items[j].key
    ensures i == j
  {
    hide LastUse;
  }

  /** The entries before an insertion cuts the list, by key. */
  lemma BeforeCut(config: Config, ops: seq<Op>, op: Op, k: CacheKey)
    requires op.InsertOp?
    requires InList(Run(config, ops), k) <==> Cached(config, ops, k)
    ensures
      var all := Without(Purged(config, Run(config, ops), op.now), op.key) + [ItemOf(op)];
      k in KeysIn(all) <==> k == op.key || (Cached(config, ops, k) && FreshAt(config, ops, k, op.now))
  {
    hide Run, Cached, FreshAt, LastInsert, Live, Without, Find;
    var items := Run(config, ops);
    var live := Purged(config, items, op.now);
    var all := Without(live, op.key) + [ItemOf(op)];
    InListIff(items, k);
    forall x | x in items ensures FreshAt(config, ops, x.key, op.now) <==> x in live {
      EntryFresh(config, ops, x, op.now);
    }
    assert ItemOf(op) in all;
    if k != op.key && Cached(config, ops, k) && FreshAt(config, ops, k, op.now) {
      var x :| x in items && x.key == k;
      assert x in all;
    }
  }

  lemma KeyUsed(ops: seq<Op>, key: CacheKey)
    ensures LastUse(ops, key) >= 0 ==> key in KeysOf(ops)
  {
  }

  /** Before the cut, the entries used later than `key` are its rivals. */
  lemma LaterIsRivals(config: Config, ops: seq<Op>, op: Op, key: CacheKey, all: seq<Item>)
    requires forall k :: k in KeysIn(all) <==>
      k == op.key || (Cached(config, ops, k) && FreshAt(config, ops, k, op.now))
    ensures Later(all, ops + [op], key) == Rivals(config, ops, op, key)
  {
    hide Cached, FreshAt, LastUse;
    var ops' := ops + [op];
    forall k ensures LastUse(ops', k) >= 0 ==> k in KeysOf(ops') { KeyUsed(ops', k); }
    forall k | k in Rivals(config, ops, op, key) ensures k in Later(all, ops', key) {
      assert k in KeysIn(all);
    }
    forall k | k in Later(all, ops', key) ensures k in Rivals(config, ops, op, key) {
      assert k in KeysIn(all);
    }
  }

  lemma InsertOtherIff(config: Config, ops: seq<Op>, op: Op, key: CacheKey)
    requires op.InsertOp? && op.key != key
    requires forall k :: InList(Run(config, ops), k) <==> Cached(config, ops, k)
    ensures InList(Run(config, ops + [op]), key) <==> Cached(config, ops + [op], key)
  {
    hide Run, Cached, Rivals, FreshAt, LastInsert, LastUse, Live, Without, Find, Newest, ByLastUse, Later, InList;
    var items, ops' := Run(config, ops), ops + [op];
    var all := Without(Purged(config, items, op.now), op.key) + [ItemOf(op)];
    RunAppend(config, ops, op);
    CachedAppend(config, ops, op, key);
    RunByLastUse(config, ops);
    InsertKeepsOrderBefore(config, items, ops, op);
    forall k ensures k in KeysIn(all) <==> k == op.key || (Cached(config, ops, k) && FreshAt(config, ops, k, op.now)) {
      BeforeCut(config, ops, op, k);
    }
    LaterIsRivals(config, ops, op, key, all);
    InListIff(Newest(all, config.capacity), key);
    if key in KeysIn(all) {
      var p :| 0 <= p < |all| && all[p].key == key;
      NewestIff(all, ops', config.capacity, p);
    } else {
      NewestSubset(all, config.capacity);
    }
  }

  lemma NewestSubset(items: seq<Item>, capacity: nat)
    ensures forall x :: x in Newest(items, capacity) ==> x in items
  {
  }

  lemma InsertOwnIff(config: Config, ops: seq<Op>, op: Op)
    requires op.InsertOp?
    ensures InList(Run(config, ops + [op]), op.key) <==> Cached(config, ops + [op], op.key)
  {
    hide Run, Cached, Rivals, LastInsert, LastUse, Live, Without, Find;
    RunAppend(config, ops, op);
    OwnInsertCached(config, ops, op);
    var all := Without(Purged(config, Run(config, ops), op.now), op.key) + [ItemOf(op)];
    var kept := Newest(all, config.capacity);
    InListIff(kept, op.key);
    if config.capacity > 0 {
      assert kept[|kept| - 1] == ItemOf(op);
    }
  }

  lemma GetIff(config: Config, ops: seq<Op>, op: Op, key: CacheKey)
    requires op.GetOp?
    requires InList(Run(config, ops), key) <==> Cached(config, ops, key)
    ensures InList(Run(config, ops + [op]), key) <==> Cached(config, ops + [op], key)
  {
    hide Run, Cached, Roomy, FreshAt, LastInsert, LastUse, Without, Find;
    var items := Run(config, ops);
    RunAppend(config, ops, op);
    CachedAppend(config, ops, op, key);
    var after := Get(config, items, op.key, op.now).items;
    InListIff(items, key);
    InListIff(after, key);
    if op.key == key && InList(items, key) {
      EntryFresh(config, ops, Find(items, key).value, op.now);
      assert FreshAt(config, ops, key, op.now) ==> Find(items, key).value in after;
    }
  }

  /** The list holds exactly the keys that the operations say are cached. */
  lemma {:induction false} InListIsCached(config: Config, ops: seq<Op>, key: CacheKey)
    ensures InList(Run(config, ops), key) <==> Cached(config, ops, key)
    decreases |ops|
  {
    hide Apply, Cached, Find;
    if ops == [] {
      NothingCached(config, key);
    } else {
      var before, op := ops[..|ops| - 1], ops[|ops| - 1];
      assert before + [op] == ops;
      forall k ensures InList(Run(config, before), k) <==> Cached(config, before, k) {
        InListIsCached(config, before, k);
      }
      if op.GetOp? {
        GetIff(config, before, op, key);
      } else if op.key == key {
        InsertOwnIff(config, before, op);
      } else {
        InsertOtherIff(config, before, op, key);
      }
    }
  }

  lemma NothingCached(config: Config, key: CacheKey)
    ensures !InList([], key) && !Cached(config, [], key)
  {
  }

  /** The whole seconds the value spent in the cache, up to the largest TTL. */
  ghost predicate SecondsBetween(inserted: Time, now: Time, n: nat) {
    if now <= inserted then n == 0
    else n * SECOND <= now - inserted && (now - inserted < (n + 1) * SECOND || n == U32_MAX) && n <= U32_MAX
  }

  /** Addresses are handed out as they were inserted, responses with their TTLs aged by the whole seconds since. */
  ghost predicate HandedOut(op: Op, now: Time, value: CacheValue)
    requires op.InsertOp?
  {
    match op.value
    case Addresses(_) => value == op.value
    case Wire(response) => exists n: nat :: SecondsBetween(op.now, now, n) && value == Wire(Edited(response, Age(n)))
  }

  lemma AgedIsHandedOut(op: Op, now: Time)
    requires op.InsertOp?
    ensures HandedOut(op, now, Aged(op.value, op.now, now))
  {
    hide Edited;
    if op.value.Wire? {
      var n := Min(Max(now - op.now, 0) / SECOND, U32_MAX);
      assert SecondsBetween(op.now, now, n);
    }
  }

  /**
   In every run an operation returns a value exactly when it is a lookup of a key that the earlier
   operations leave cached and that is not expired, and the value is that of its last insertion.
   */
  lemma HitIff(config: Config, ops: seq<Op>, j: nat)
    requires j < |ops|
    ensures
      var before, key, now := ops[..j], ops[j].key, ops[j].now;
      && (Replies(config, ops)[j].Some? <==>
            ops[j].GetOp? && Cached(config, before, key) && FreshAt(config, before, key, now))
      && (Replies(config, ops)[j].Some? ==>
            HandedOut(before[LastInsert(before, key)], now, Replies(config, ops)[j].value))
  {
    hide Run, Cached, FreshAt, LastInsert, Without, Find, Aged, HandedOut, Insert;
    var before, key, now := ops[..j], ops[j].key, ops[j].now;
    ReplyAt(config, ops, j);
    InListIsCached(config, before, key);
    if ops[j].GetOp? && InList(Run(config, before), key) {
      var x := Find(Run(config, before), key).value;
      HeldIsLastInsert(config, before, x);
      EntryFresh(config, before, x, now);
      AgedIsHandedOut(before[LastInsert(before, key)], now);
    }
  }

  lemma {:induction false} ReplyAt(config: Config, ops: seq<Op>, j: nat)
    requires j < |ops|
    ensures Replies(config, ops)[j] == Apply(config, Run(config, ops[..j]), ops[j]).value
    decreases |ops|
  {
    hide Apply, Run;
    var front := ops[..|ops| - 1];
    if j < |front| {
      ReplyAt(config, front, j);
      assert front[..j] == ops[..j];
    }
  }
}
