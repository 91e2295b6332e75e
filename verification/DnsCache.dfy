/**
 The DNS cache itself (src/dns/cache.rs): a map, an expiry heap and an access queue whose
 stale tuples are dropped lazily, and periodic compaction of the queue.

 The clock is a natural number: wrap-around of the 64-bit counter is not modelled.
 */
module DnsCache {
  import opened Basics
  import opened Octets
  import opened LruSpec

  const USIZE_MAX := 0xffff_ffff_ffff_ffff

  datatype Entry = Entry(value: CacheValue, expires: Time, inserted: Time, version: nat, lastAccess: nat)

  /** A queue tuple; it is stale unless its entry still has this version and last access. */
  datatype Use = Use(access: nat, version: nat, key: CacheKey)

  /** A heap tuple; it is stale unless its entry still has this version. */
  datatype Expiry = Expiry(expires: Time, version: nat, key: CacheKey)

  type Entries = map<CacheKey, Entry>

  function UseOf(entries: Entries, key: CacheKey): Use
    requires key in entries
  {
    Use(entries[key].lastAccess, entries[key].version, key)
  }

  // ---------------------------------------------------------------- relation to the reference list

  ghost predicate Describes(x: Item, entries: Entries) {
    && x.key in entries
    && entries[x.key].value == x.value && entries[x.key].expires == x.expires && entries[x.key].inserted == x.inserted
  }

  /** The items describe entries, by increasing last access. */
  ghost predicate Ordered(items: seq<Item>, entries: Entries) {
    items == [] ||
    (&& Describes(items[0], entries)
     && Ordered(items[1..], entries)
     && forall x :: x in items[1..] ==>
       x.key in entries && entries[items[0].key].lastAccess < entries[x.key].lastAccess)
  }

  /** The reference list holds exactly the entries, least recently accessed first. */
  ghost predicate Represents(items: seq<Item>, entries: Entries) {
    && Ordered(items, entries)
    && (forall key :: key in entries <==> Find(items, key).Some?)
    && |items| == |entries|
  }

  lemma {:induction false} OrderedDescribes(items: seq<Item>, entries: Entries)
    requires Ordered(items, entries)
    ensures forall x :: x in items ==> Describes(x, entries)
    decreases |items|
  {
    if items != [] {
      OrderedDescribes(items[1..], entries);
    }
  }

  /** Entries that agree on the listed keys serve as well. */
  lemma {:induction false} OrderedFrame(items: seq<Item>, entries: Entries, entries': Entries)
    requires Ordered(items, entries)
    requires forall x :: x in items ==> x.key in entries' && entries'[x.key] == entries[x.key]
    ensures Ordered(items, entries')
    decreases |items|
  {
    if items != [] {
      OrderedDescribes(items, entries);
      OrderedFrame(items[1..], entries, entries');
    }
  }

  lemma {:induction false} OrderedAppend(items: seq<Item>, entries: Entries, x: Item)
    requires Ordered(items, entries) && Describes(x, entries)
    requires forall y :: y in items ==> y.key in entries && entries[y.key].lastAccess < entries[x.key].lastAccess
    ensures Ordered(items + [x], entries)
    decreases |items|
  {
    if items != [] {
      assert (items + [x])[1..] == items[1..] + [x];
      OrderedAppend(items[1..], entries, x);
    }
  }

  lemma {:induction false} OrderedWithout(items: seq<Item>, entries: Entries, key: CacheKey)
    requires Ordered(items, entries)
    ensures Ordered(Without(items, key), entries)
    ensures |Without(items, key)| == if Find(items, key).Some? then |items| - 1 else |items|
    decreases |items|
  {
    if items != [] {
      OrderedDescribes(items, entries);
      OrderedWithout(items[1..], entries, key);
      if items[0].key == key {
        assert forall x :: x in items[1..] ==> x.key != key;
      } else {
        assert ([items[0]] + Without(items[1..], key))[1..] == Without(items[1..], key);
      }
    }
  }

  lemma {:induction false} OrderedLive(items: seq<Item>, entries: Entries, now: Time)
    requires Ordered(items, entries)
    ensures Ordered(Live(items, now), entries)
    decreases |items|
  {
    if items != [] {
      OrderedDescribes(items, entries);
      OrderedLive(items[1..], entries, now);
      if now < items[0].expires {
        assert ([items[0]] + Live(items[1..], now))[1..] == Live(items[1..], now);
      }
    }
  }

  /** The tail of a list of the entries lists the entries without the first one. */
  lemma OrderedTail(items: seq<Item>, entries: Entries)
    requires items != [] && Ordered(items, entries) && forall key :: key in entries ==> Find(items, key).Some?
    ensures items[0].key in entries
    ensures
      var rest := entries - {items[0].key};
      Ordered(items[1..], rest) && forall key :: key in rest ==> Find(items[1..], key).Some?
  {
    var key := items[0].key;
    var rest := entries - {key};
    OrderedFrame(items[1..], entries, rest) by {
      assert forall x :: x in items[1..] ==> x.key != key;
    }
    forall k | k in rest ensures Find(items[1..], k).Some? {
      assert Find(items, k).Some?;
    }
  }

  /** A list of the entries has as many items as there are entries. */
  lemma {:induction false} OrderedCount(items: seq<Item>, entries: Entries)
    requires Ordered(items, entries) && forall key :: key in entries ==> Find(items, key).Some?
    ensures |items| == |entries|
    decreases |items|
  {
    hide Ordered;
    if items == [] {
      assert entries.Keys == {};
    } else {
      var key := items[0].key;
      var rest := entries - {key};
      OrderedTail(items, entries);
      OrderedCount(items[1..], rest);
      assert entries.Keys == rest.Keys + {key};
      assert |entries.Keys| == |rest.Keys| + 1;
    }
  }

  // ---------------------------------------------------------------- the lazily cleaned structures

  /** The queue is sorted by access and holds the current tuple of every entry. */
  ghost predicate QueueValid(lru: seq<Use>, entries: Entries, clock: nat) {
    && (forall i, j :: 0 <= i < j < |lru| ==> lru[i].access < lru[j].access)
    && (forall i :: 0 <= i < |lru| ==> lru[i].access <= clock)
    && (forall key :: key in entries ==> UseOf(entries, key) in lru)
  }

  /** The heap holds the current tuple of every entry. */
  ghost predicate HeapValid(expiry: set<Expiry>, entries: Entries) {
    forall key :: key in entries ==> Expiry(entries[key].expires, entries[key].version, key) in expiry
  }

  /** A pushed tuple goes to the back of the queue. */
  lemma QueuePush(lru: seq<Use>, entries: Entries, entries': Entries, clock: nat, key: CacheKey)
    requires QueueValid(lru, entries, clock) && key in entries' && entries'[key].lastAccess == clock + 1
    requires forall k :: k in entries' && k != key ==> k in entries && entries'[k] == entries[k]
    ensures QueueValid(lru + [UseOf(entries', key)], entries', clock + 1)
  {
    forall k | k in entries' ensures UseOf(entries', k) in lru + [UseOf(entries', key)] {
      if k != key {
        assert UseOf(entries, k) in lru;
      }
    }
  }

  /** The front tuple is current only for the least recently accessed entry. */
  lemma FrontIsOldest(lru: seq<Use>, entries: Entries, clock: nat, items: seq<Item>)
    requires QueueValid(lru, entries, clock) && lru != [] && items != [] && Ordered(items, entries)
    requires lru[0].key in entries && lru[0] == UseOf(entries, lru[0].key) && Find(items, lru[0].key).Some?
    ensures items[0].key == lru[0].key
  {
    assert UseOf(entries, items[0].key) in lru;
  }

  /** The least heap tuple: what `peek` and `pop` return. */
  predicate IsTop(expiry: set<Expiry>, top: Expiry) {
    top in expiry && forall x :: x in expiry ==> top.expires <= x.expires
  }

  lemma TopExists(expiry: set<Expiry>)
    requires expiry != {}
    ensures exists top :: IsTop(expiry, top)
  {
    var top := LeastRanked(expiry, (x: Expiry) => x.expires);
    assert IsTop(expiry, top);
  }

  /** The rebuilt queue of `compact_lru`: the current tuples, sorted by access. */
  ghost predicate IsCompacted(lru: seq<Use>, entries: Entries) {
    && (forall i, j :: 0 <= i < j < |lru| ==> lru[i].access < lru[j].access)
    && (forall u :: u in lru ==> u.key in entries && u == UseOf(entries, u.key))
    && (forall key :: key in entries ==> UseOf(entries, key) in lru)
    && |lru| == |entries|
  }

  /** The least recently accessed key of a non-empty set. */
  predicate IsLeast(entries: Entries, keys: set<CacheKey>, key: CacheKey)
    requires keys <= entries.Keys
  {
    key in keys && forall k :: k in keys ==> entries[key].lastAccess <= entries[k].lastAccess
  }

  lemma LeastExists(entries: Entries, keys: set<CacheKey>)
    requires keys <= entries.Keys && keys != {}
    ensures exists key :: IsLeast(entries, keys, key)
  {
    var key := LeastRanked(keys, k => if k in entries then entries[k].lastAccess else 0);
    assert IsLeast(entries, keys, key);
  }

  ghost predicate DistinctAccess(entries: Entries) {
    forall k, k' :: k in entries && k' in entries && k != k' ==> entries[k].lastAccess != entries[k'].lastAccess
  }

  /** Collecting the entries and sorting them by last access. */
  method SortedUses(entries: Entries) returns (lru: seq<Use>)
    requires DistinctAccess(entries)
    ensures IsCompacted(lru, entries)
  {
    lru := [];
    var rest := entries.Keys;
    while rest != {}
      invariant rest <= entries.Keys && |lru| + |rest| == |entries|
      invariant forall i, j :: 0 <= i < j < |lru| ==> lru[i].access < lru[j].access
      invariant forall u :: u in lru ==> u.key in entries && u.key !in rest && u == UseOf(entries, u.key)
      invariant forall key :: key in entries && key !in rest ==> UseOf(entries, key) in lru
      invariant forall i, k :: 0 <= i < |lru| && k in rest ==> lru[i].access < entries[k].lastAccess
      decreases rest
    {
      LeastExists(entries, rest);
      var key :| IsLeast(entries, rest, key);
      lru := lru + [UseOf(entries, key)];
      rest := rest - {key};
    }
  }

  function QueueLimit(capacity: nat): nat {
    Max(Min(capacity * 8, USIZE_MAX), 64)
  }

  lemma QueueBounds(lru: seq<Use>, entries: Entries, clock: nat)
    requires QueueValid(lru, entries, clock)
    ensures forall key :: key in entries ==> entries[key].lastAccess <= clock
  {
    forall key | key in entries ensures entries[key].lastAccess <= clock {
      assert UseOf(entries, key) in lru;
    }
  }

  lemma PurgedRepresents(items: seq<Item>, before: Entries, after: Entries, now: Time)
    requires Represents(items, before)
    requires forall key :: key in after ==> key in before && after[key] == before[key]
    requires forall key :: key in after <==> key in before && now < before[key].expires
    ensures Represents(Live(items, now), after)
  {
    OrderedDescribes(items, before);
    OrderedLive(items, before, now);
    OrderedFrame(Live(items, now), before, after);
    forall key ensures key in after <==> Find(Live(items, now), key).Some? {
      if key in after {
        assert Find(items, key).value in Live(items, now);
      }
    }
    OrderedCount(Live(items, now), after);
  }

  lemma EvictFront(entries: Entries, items: seq<Item>)
    requires Represents(items, entries) && items != []
    ensures Represents(items[1..], entries - {items[0].key})
  {
    var key := items[0].key;
    OrderedDescribes(items, entries);
    assert forall x :: x in items[1..] ==> x.key != key;
    OrderedFrame(items[1..], entries, entries - {key});
    assert entries.Keys == (entries - {key}).Keys + {key};
  }

  lemma {:induction false} OrderedDistinct(items: seq<Item>, entries: Entries)
    requires Ordered(items, entries) && forall key :: key in entries ==> Find(items, key).Some?
    ensures DistinctAccess(entries)
    decreases |items|
  {
    if items != [] {
      var key := items[0].key;
      OrderedTail(items, entries);
      OrderedDistinct(items[1..], entries - {key});
      forall k | k in entries && k != key ensures entries[key].lastAccess < entries[k].lastAccess {
        OldestFirst(items, entries, k);
      }
    }
  }

  lemma OldestFirst(items: seq<Item>, entries: Entries, key: CacheKey)
    requires items != [] && Ordered(items, entries) && key in entries && key != items[0].key && Find(items, key).Some?
    ensures items[0].key in entries && entries[items[0].key].lastAccess < entries[key].lastAccess
  {
    OrderedDescribes(items, entries);
    assert Find(items, key).value in items[1..];
  }

  // ---------------------------------------------------------------- what each step keeps

  /** The invariant: map, queue and heap together stand for the reference list. */
  ghost predicate Sound(items: seq<Item>, entries: Entries, lru: seq<Use>, expiry: set<Expiry>, clock: nat) {
    Represents(items, entries) && QueueValid(lru, entries, clock) && HeapValid(expiry, entries)
  }

  lemma SizesAgree(items: seq<Item>, entries: Entries, lru: seq<Use>, expiry: set<Expiry>, clock: nat)
    requires Sound(items, entries, lru, expiry, clock)
    ensures |items| == |entries|
  {
  }

  /** Entries and reference list agree key by key. */
  lemma SameKeys(items: seq<Item>, entries: Entries, key: CacheKey)
    requires Represents(items, entries)
    ensures key in entries <==> Find(items, key).Some?
    ensures key in entries ==> Describes(Find(items, key).value, entries)
  {
    OrderedDescribes(items, entries);
  }

  /** Removing an entry leaves only stale tuples behind. */
  lemma ForgetKeeps(items: seq<Item>, entries: Entries, lru: seq<Use>, expiry: set<Expiry>, clock: nat, key: CacheKey)
    requires Sound(items, entries, lru, expiry, clock) && key in entries
    ensures Sound(Without(items, key), entries - {key}, lru, expiry, clock)
  {
    var after, rest := entries - {key}, Without(items, key);
    OrderedDescribes(items, entries);
    OrderedWithout(items, entries, key);
    OrderedFrame(rest, entries, after);
    FindWithout(items, key);
    assert entries.Keys == after.Keys + {key};
    assert forall k :: k in after ==> UseOf(after, k) == UseOf(entries, k);
  }

  lemma FindWithout(items: seq<Item>, key: CacheKey)
    ensures forall k :: Find(Without(items, key), k).Some? <==> k != key && Find(items, k).Some?
  {
    forall k ensures Find(Without(items, key), k).Some? <==> k != key && Find(items, k).Some? {
      var rest := Without(items, key);
      if Find(items, k).Some? && k != key {
        assert Find(items, k).value in rest;
      }
      if Find(rest, k).Some? {
        assert Find(rest, k).value in items;
      }
    }
  }

  lemma {:induction false} FindAppend(items: seq<Item>, x: Item, key: CacheKey)
    ensures Find(items + [x], key).Some? <==> Find(items, key).Some? || x.key == key
  {
    if Find(items, key).Some? {
      assert Find(items, key).value in items + [x];
    } else if x.key == key {
      assert x in items + [x];
    }
  }

  /** Writing an entry with the next clock value moves its item to the back. */
  lemma WriteRepresents(items: seq<Item>, entries: Entries, clock: nat, x: Item, entry: Entry)
    requires Represents(items, entries) && forall key :: key in entries ==> entries[key].lastAccess <= clock
    requires entry.value == x.value && entry.expires == x.expires && entry.inserted == x.inserted
    requires entry.lastAccess == clock + 1
    ensures Represents(Without(items, x.key) + [x], entries[x.key := entry])
  {
    var after, rest := entries[x.key := entry], Without(items, x.key);
    OrderedDescribes(items, entries);
    OrderedWithout(items, entries, x.key);
    OrderedFrame(rest, entries, after);
    OrderedAppend(rest, after, x);
    FindWithout(items, x.key);
    forall k ensures k in after <==> Find(rest + [x], k).Some? {
      FindAppend(rest, x, k);
    }
    OrderedCount(rest + [x], after);
  }

  lemma TouchKeeps(items: seq<Item>, entries: Entries, lru: seq<Use>, expiry: set<Expiry>, clock: nat, key: CacheKey)
    requires Sound(items, entries, lru, expiry, clock) && key in entries
    ensures
      var after := entries[key := entries[key].(lastAccess := clock + 1)];
      && Find(items, key).Some?
      && Sound(Without(items, key) + [Find(items, key).value], after, lru + [UseOf(after, key)], expiry, clock + 1)
  {
    hide Represents, Find, Without, QueueValid, HeapValid;
    var after := entries[key := entries[key].(lastAccess := clock + 1)];
    SameKeys(items, entries, key);
    QueueBounds(lru, entries, clock);
    WriteRepresents(items, entries, clock, Find(items, key).value, after[key]);
    QueuePush(lru, entries, after, clock, key);
    HeapTouch(expiry, entries, after);
  }

  /** Accesses do not concern the heap. */
  lemma HeapTouch(expiry: set<Expiry>, entries: Entries, after: Entries)
    requires HeapValid(expiry, entries)
    requires forall k :: k in after ==>
      k in entries && after[k].expires == entries[k].expires && after[k].version == entries[k].version
    ensures HeapValid(expiry, after)
  {
  }

  lemma StoreKeeps(items: seq<Item>, entries: Entries, lru: seq<Use>, expiry: set<Expiry>, clock: nat, x: Item)
    requires Sound(items, entries, lru, expiry, clock)
    ensures
      var after := entries[x.key := Entry(x.value, x.expires, x.inserted, clock + 1, clock + 1)];
      Sound(Without(items, x.key) + [x], after, lru + [UseOf(after, x.key)],
            expiry + {Expiry(x.expires, clock + 1, x.key)}, clock + 1)
  {
    hide Ordered, Find, Without, QueueValid;
    var after := entries[x.key := Entry(x.value, x.expires, x.inserted, clock + 1, clock + 1)];
    QueueBounds(lru, entries, clock);
    WriteRepresents(items, entries, clock, x, after[x.key]);
    QueuePush(lru, entries, after, clock, x.key);
  }

  /** Dropping the front tuple: it evicts the least recently accessed entry, or nothing. */
  lemma PopKeeps(items: seq<Item>, entries: Entries, lru: seq<Use>, expiry: set<Expiry>, clock: nat)
    requires Sound(items, entries, lru, expiry, clock) && lru != []
    ensures
      if lru[0].key in entries && UseOf(entries, lru[0].key) == lru[0]
      then items != [] && Sound(items[1..], entries - {lru[0].key}, lru[1..], expiry, clock)
      else Sound(items, entries, lru[1..], expiry, clock)
  {
    hide Ordered, Find;
    var front := lru[0];
    if front.key in entries && UseOf(entries, front.key) == front {
      SameKeys(items, entries, front.key);
      FrontIsOldest(lru, entries, clock, items);
      EvictFront(entries, items);
      PopQueue(lru, entries, entries - {front.key}, clock);
    } else {
      PopQueue(lru, entries, entries, clock);
    }
  }

  lemma PopQueue(lru: seq<Use>, entries: Entries, after: Entries, clock: nat)
    requires QueueValid(lru, entries, clock) && lru != []
    requires forall k :: k in after ==> k in entries && after[k] == entries[k] && UseOf(entries, k) != lru[0]
    ensures QueueValid(lru[1..], after, clock)
  {
    forall k | k in after ensures UseOf(after, k) in lru[1..] {
      assert UseOf(entries, k) in lru;
    }
  }

  /** The queue never runs empty while there are entries. */
  lemma QueueCovers(items: seq<Item>, entries: Entries, lru: seq<Use>, expiry: set<Expiry>, clock: nat)
    requires Sound(items, entries, lru, expiry, clock)
    ensures |items| == |entries| && (lru == [] ==> items == [])
  {
    if items != [] {
      assert UseOf(entries, items[0].key) in lru;
    }
  }

  lemma CompactKeeps(items: seq<Item>, entries: Entries, lru: seq<Use>, expiry: set<Expiry>, clock: nat, lru': seq<Use>)
    requires Sound(items, entries, lru, expiry, clock)
    ensures DistinctAccess(entries)
    ensures IsCompacted(lru', entries) ==> Sound(items, entries, lru', expiry, clock)
  {
    OrderedDistinct(items, entries);
    QueueBounds(lru, entries, clock);
  }

  /** Entries the purge may have removed so far: expired ones only. */
  ghost predicate Purging(before: Entries, entries: Entries, expiry: set<Expiry>, now: Time) {
    && (forall key :: key in entries ==> key in before && entries[key] == before[key])
    && (forall key :: key in before && key !in entries ==> before[key].expires <= now)
    && HeapValid(expiry, entries)
  }

  lemma PurgeKeeps(items: seq<Item>, before: Entries, lru: seq<Use>, old_expiry: set<Expiry>, clock: nat,
                   entries: Entries, expiry: set<Expiry>, now: Time)
    requires Sound(items, before, lru, old_expiry, clock) && Purging(before, entries, expiry, now)
    requires forall x :: x in expiry ==> now < x.expires
    ensures Sound(Live(items, now), entries, lru, expiry, clock)
  {
    forall key ensures key in entries <==> key in before && now < before[key].expires {
      if key in entries {
        assert Expiry(entries[key].expires, entries[key].version, key) in expiry;
      }
    }
    PurgedRepresents(items, before, entries, now);
    assert forall k :: k in entries ==> UseOf(entries, k) == UseOf(before, k);
  }

  /** Popping the top tuple, and removing its entry if the tuple is current and expired. */
  lemma PurgeStep(before: Entries, entries: Entries, expiry: set<Expiry>, now: Time, top: Expiry)
    requires Purging(before, entries, expiry, now) && top in expiry && top.expires <= now
    ensures
      var current := top.key in entries && entries[top.key].version == top.version && entries[top.key].expires <= now;
      Purging(before, if current then entries - {top.key} else entries, expiry - {top}, now)
  {
  }

  // ---------------------------------------------------------------- the cache

  class DnsCache {
    var entries: Entries
    var expiry: set<Expiry>
    var lru: seq<Use>
    const config: Config
    var clock: nat
    /** The reference list this cache stands for. */
    ghost var items: seq<Item>

    ghost predicate Valid()
      reads this
    {
      config.capacity <= USIZE_MAX && Sound(items, entries, lru, expiry, clock)
    }

    /** Both sizes are within their limits. */
    ghost predicate Bounded()
      reads this
    {
      |entries| <= config.capacity && |lru| <= QueueLimit(config.capacity)
    }

    constructor (config: Config)
      requires config.capacity <= USIZE_MAX
      ensures Valid() && Bounded() && items == [] && this.config == config
    {
      this.config := config;
      entries, expiry, lru, clock := map[], {}, [], 0;
      items := [];
    }

    method Get(key: CacheKey, now: Time) returns (value: Option<CacheValue>)
      requires Valid() && Bounded()
      modifies this
      ensures Valid() && Bounded()
      ensures Answer(items, value) == LruSpec.Get(config, old(items), key, now)
    {
      hide Represents, QueueValid, HeapValid, Find, Without, Aged;
      SizesAgree(items, entries, lru, expiry, clock);
      SameKeys(items, entries, key);
      if !config.disableExpire && key in entries && entries[key].expires <= now {
        ForgetKeeps(items, entries, lru, expiry, clock, key);
        entries := entries - {key};
        items := Without(items, key);
        return None;
      }
      if key !in entries {
        return None;
      }
      TouchKeeps(items, entries, lru, expiry, clock, key);
      WithoutLess(items, key);
      clock := clock + 1;
      entries := entries[key := entries[key].(lastAccess := clock)];
      lru := lru + [UseOf(entries, key)];
      items := Without(items, key) + [Find(items, key).value];
      value := Some(Aged(entries[key].value, entries[key].inserted, now));
      CompactLru();
    }

    method Insert(key: CacheKey, value: CacheValue, ttl: nat, now: Time)
      requires Valid()
      modifies this
      ensures Valid() && Bounded()
      ensures items == LruSpec.Insert(config, old(items), key, value, ttl, now)
    {
      hide Sound, Without, Live;
      PurgeExpired(now);
      StoreKeeps(items, entries, lru, expiry, clock, Item(key, value, now + ttl, now));
      clock := clock + 1;
      var version := clock;
      var expires := now + ttl;
      entries := entries[key := Entry(value, expires, now, version, clock)];
      expiry := expiry + {Expiry(expires, version, key)};
      lru := lru + [Use(clock, version, key)];
      items := Without(items, key) + [Item(key, value, expires, now)];
      EvictLru();
      CompactLru();
    }

    method PurgeExpired(now: Time)
      requires Valid()
      modifies this`entries, this`items, this`expiry
      ensures Valid() && items == Purged(config, old(items), now)
    {
      hide Represents, QueueValid, Live, Purging;
      if config.disableExpire {
        return;
      }
      PurgeStart(entries, expiry, now);
      while expiry != {}
        invariant Purging(old(entries), entries, expiry, now) && items == old(items)
        decreases expiry
      {
        TopExists(expiry);
        var top :| IsTop(expiry, top);
        if now < top.expires {
          break;
        }
        PurgeStep(old(entries), entries, expiry, now, top);
        expiry := expiry - {top};
        if top.key in entries && entries[top.key].version == top.version && entries[top.key].expires <= now {
          entries := entries - {top.key};
        }
      }
      PurgeKeeps(items, old(entries), lru, old(expiry), clock, entries, expiry, now);
      items := Live(items, now);
    }

    method EvictLru()
      requires Valid()
      modifies this`entries, this`items, this`lru
      ensures Valid() && items == Newest(old(items), config.capacity)
    {
      hide Sound;
      QueueCovers(items, entries, lru, expiry, clock);
      ghost var k := 0;
      while |entries| > config.capacity
        invariant Valid() && |items| == |entries|
        invariant 0 <= k <= |old(items)| && items == old(items)[k..]
        invariant k == 0 || |items| >= config.capacity
        decreases |lru|
      {
        // The queue is not empty here, so the early exit of the source is never taken.
        QueueCovers(items, entries, lru, expiry, clock);
        PopKeeps(items, entries, lru, expiry, clock);
        var front := lru[0];
        lru := lru[1..];
        if
          && front.key in entries
          && entries[front.key].version == front.version
          && entries[front.key].lastAccess == front.access
        {
          entries := entries - {front.key};
          items := items[1..];
          k := k + 1;
        }
        QueueCovers(items, entries, lru, expiry, clock);
      }
    }

    method CompactLru()
      requires Valid() && |items| <= config.capacity
      modifies this`lru
      ensures Valid() && Bounded()
    {
      hide Sound;
      QueueCovers(items, entries, lru, expiry, clock);
      if |lru| <= QueueLimit(config.capacity) {
        return;
      }
      CompactKeeps(items, entries, lru, expiry, clock, []);
      var sorted := SortedUses(entries);
      CompactKeeps(items, entries, lru, expiry, clock, sorted);
      lru := sorted;
    }
  }

  lemma PurgeStart(entries: Entries, expiry: set<Expiry>, now: Time)
    requires HeapValid(expiry, entries)
    ensures Purging(entries, entries, expiry, now)
  {
  }

  // ---------------------------------------------------------------- whole runs

  /**
   Every run on a new cache answers like the reference list. Before and after each operation it holds
   as many entries as the list has items, which is within the capacity, and its queue is within its limit.
   */
  method Replay(config: Config, ops: seq<Op>)
    returns (replies: seq<Option<CacheValue>>, entries: seq<nat>, queued: seq<nat>)
    requires config.capacity <= USIZE_MAX
    ensures replies == Replies(config, ops)
    ensures |entries| == |queued| == |ops| + 1
    ensures forall i :: 0 <= i <= |ops| ==> entries[i] == |Run(config, ops[..i])| <= config.capacity
    ensures forall i :: 0 <= i <= |ops| ==> queued[i] <= QueueLimit(config.capacity)
  {
    hide Sound, LruSpec.Get, LruSpec.Insert, Run, Replies;
    var cache := new DnsCache(config);
    replies, entries, queued := [], [0], [0];
    RunEmpty(config);
    for i := 0 to |ops|
      invariant cache.Valid() && cache.Bounded() && cache.config == config
      invariant cache.items == Run(config, ops[..i]) && replies == Replies(config, ops[..i])
      invariant |entries| == |queued| == i + 1
      invariant forall j :: 0 <= j <= i ==> entries[j] == |Run(config, ops[..j])| <= config.capacity
      invariant forall j :: 0 <= j <= i ==> queued[j] <= QueueLimit(config.capacity)
    {
      assert ops[..i + 1] == ops[..i] + [ops[i]];
      RunAppend(config, ops[..i], ops[i]);
      match ops[i] {
        case GetOp(key, now) =>
          var value := cache.Get(key, now);
          replies := replies + [value];
        case InsertOp(key, now, value, ttl) =>
          cache.Insert(key, value, ttl, now);
          replies := replies + [None];
      }
      SizesAgree(cache.items, cache.entries, cache.lru, cache.expiry, cache.clock);
      entries, queued := entries + [|cache.entries|], queued + [|cache.lru|];
    }
    assert ops[..|ops|] == ops;
  }
}
