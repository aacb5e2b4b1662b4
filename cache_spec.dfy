/**
 * Functional model of the per-namespace LRU + TTL cache engine (benchmark/MapCache.js).
 *
 * An `Engine` is the whole state of one cache: the capacity, the recency order of the
 * keys (the insertion order of the JavaScript `Map`: index 0 is the least recently used
 * key, the last index the most recently used one), the stored entries, the counter of
 * entries that were given an expiry and the time of the last active-expiration sweep.
 * Every helper of the JavaScript class is one function here; each returns the new
 * engine together with what the helper returns. Time is the parameter `now`, in
 * milliseconds, read once per operation.
 */
module CacheSpec {

  type Key = string
  type Value = string

  /** Minimum time between two active-expiration sweeps, in milliseconds. */
  const EXPIRE_INTERVAL: int := 30000
  /** The `expire` of an entry that never expires. */
  const NO_EXPIRY: int := -1

  datatype Option<T> = None | Some(value: T)

  /** One stored entry (`Item`): `expire` is an absolute time in milliseconds, or NO_EXPIRY. */
  datatype Entry = Entry(key: Key, value: Value, lastUsed: int, expire: int)

  /** What `stat` reports about an entry. */
  datatype Stat = Stat(lastUsed: int, expire: int)

  /** The two errors the engine throws; `Message` is the text of the thrown Error. */
  datatype CacheError = NotFound(key: Key) | AlreadyExists(key: Key)
  {
    function Message(): string
    {
      match this
      case NotFound(k) => "Key " + k + " not found"
      case AlreadyExists(k) => "Key " + k + " already exists"
    }
  }

  datatype Result<T> = Ok(value: T) | Err(error: CacheError)

  datatype Engine = Engine(
    capacity: int,
    order: seq<Key>,
    items: map<Key, Entry>,
    expireSetItems: int,
    lastCheck: int)

  /** The engine after an operation, and the operation's result. */
  datatype Step<T> = Step(engine: Engine, result: T)

  /** Result of `add`, and whether its capacity check scheduled a sweep. */
  datatype Admission = Admission(outcome: Result<bool>, sweepScheduled: bool)

  // ---------------------------------------------------------------------------
  // Sequences of keys

  predicate Distinct(s: seq<Key>)
  {
    forall i, j :: 0 <= i < j < |s| ==> s[i] != s[j]
  }

  /** The keys of `s` that are not in `ks`, in their original order. */
  function Except(s: seq<Key>, ks: set<Key>): (r: seq<Key>)
    ensures forall x :: x in r <==> x in s && x !in ks
    ensures Distinct(s) ==> Distinct(r)
    ensures |r| <= |s|
    decreases |s|
  {
    if s == [] then []
    else if s[0] in ks then Except(s[1..], ks)
    else [s[0]] + Except(s[1..], ks)
  }

  // ---------------------------------------------------------------------------
  // The engine and its invariant

  /** A freshly constructed (or flushed, apart from lastCheck) cache. */
  function Empty(capacity: int): (e: Engine)
    ensures Valid(e) && Size(e) == 0 && e.capacity == capacity
  {
    Engine(capacity, [], map[], 0, 0)
  }

  /** The keys of `order` are unique and are those of `items`, each stored under its own key. */
  predicate WellIndexed(order: seq<Key>, items: map<Key, Entry>)
  {
    && Distinct(order)
    && (forall k :: k in order ==> k in items)
    && (forall k :: k in items ==> k in order)
    && (forall k :: k in items ==> items[k].key == k)
  }

  /** The Map's keys are unique, and each entry is stored under its own key. */
  predicate Valid(e: Engine)
  {
    WellIndexed(e.order, e.items)
  }

  /** `map.size`. */
  function Size(e: Engine): int
  {
    |e.order|
  }

  /** An entry with an expiry that lies strictly before `now`. */
  predicate Expired(entry: Entry, now: int)
  {
    entry.expire >= 0 && entry.expire < now
  }

  /** A key that reads succeed on at time `now`. */
  predicate Live(e: Engine, key: Key, now: int)
  {
    key in e.items && !Expired(e.items[key], now)
  }

  // ---------------------------------------------------------------------------
  // The two Map primitives

  /** `map.delete(key)`. */
  function MapDelete(e: Engine, key: Key): (r: Engine)
    ensures Valid(e) ==> Valid(r) && key !in r.items
  {
    e.(order := Except(e.order, {key}), items := e.items - {key})
  }

  /** `map.set(entry.key, entry)`: a new key goes last, an existing key keeps its place. */
  function MapSet(e: Engine, entry: Entry): (r: Engine)
    ensures entry.key in r.items && r.items[entry.key] == entry
    ensures Valid(e) ==> Valid(r)
  {
    e.(order := if entry.key in e.items then e.order else e.order + [entry.key],
       items := e.items[entry.key := entry])
  }

  /** `map.get(key)`. */
  function Lookup(e: Engine, key: Key): Option<Entry>
  {
    if key in e.items then Some(e.items[key]) else None
  }

  // ---------------------------------------------------------------------------
  // The helpers of the engine

  /** `_checkExpiration`: an expired entry is deleted and the counter decremented. */
  function CheckExpiration(e: Engine, item: Option<Entry>, now: int): (r: Step<Option<Entry>>)
    ensures r.result.None? <==> item.None? || Expired(item.value, now)
    ensures !(item.Some? && Expired(item.value, now)) ==> r == Step(e, item)
    ensures item.Some? && Expired(item.value, now) ==>
              && r.engine.items == e.items - {item.value.key}
              && r.engine.expireSetItems == e.expireSetItems - 1
              && r.engine.capacity == e.capacity && r.engine.lastCheck == e.lastCheck
    ensures Valid(e) ==> Valid(r.engine)
  {
    if item.Some? && Expired(item.value, now) then
      Step(MapDelete(e, item.value.key).(expireSetItems := e.expireSetItems - 1), None)
    else
      Step(e, item)
  }

  /** `_retrieve`: the live entry under `key`, or NotFound. */
  function Retrieve(e: Engine, key: Key, now: int): (r: Step<Result<Entry>>)
    requires Valid(e)
    ensures r.result.Ok? <==> Live(e, key, now)
    ensures r.result.Ok? ==> r.engine == e && r.result.value == e.items[key]
    ensures r.result.Err? ==> r.result.error == NotFound(key)
    ensures key !in e.items ==> r.engine == e
    ensures Valid(r.engine)
    ensures key in e.items && Expired(e.items[key], now) ==>
              && r.engine.items == e.items - {key}
              && r.engine.order == Except(e.order, {key})
              && r.engine.expireSetItems == e.expireSetItems - 1
  {
    var c := CheckExpiration(e, Lookup(e, key), now);
    if c.result.None? then Step(c.engine, Err(NotFound(key))) else Step(c.engine, Ok(c.result.value))
  }

  /** `_pushItemUpfront`: move the entry to the most recently used place, stamped `now`. */
  function PushItemUpfront(e: Engine, entry: Entry, now: int): (r: Engine)
    ensures entry.key in r.items && r.items[entry.key] == entry.(lastUsed := now)
    ensures forall k :: k in e.items && k != entry.key ==> k in r.items && r.items[k] == e.items[k]
    ensures r.items.Keys == e.items.Keys + {entry.key}
    ensures Valid(e) ==> Valid(r) && r.order != [] && r.order[|r.order| - 1] == entry.key
  {
    MapSet(MapDelete(e, entry.key), entry.(lastUsed := now))
  }

  /** The absolute expiry of a TTL of `expire` seconds set at `now`, if positive. */
  function ExpireAt(expire: int, now: int): int
  {
    if expire > 0 then now + expire * 1000 else NO_EXPIRY
  }

  /** `_setExpiration`: a positive TTL sets the entry's expiry and increments the counter. */
  function SetExpiration(e: Engine, expire: int, entry: Entry, now: int): (r: Step<Entry>)
    ensures r.result.(expire := entry.expire) == entry
    ensures r.engine == e.(expireSetItems := r.engine.expireSetItems)
    ensures expire > 0 ==> r.result.expire > now && r.engine.expireSetItems == e.expireSetItems + 1
    ensures expire <= 0 ==> r == Step(e, entry)
  {
    if expire > 0 then
      Step(e.(expireSetItems := e.expireSetItems + 1), entry.(expire := ExpireAt(expire, now)))
    else
      Step(e, entry)
  }

  /**
   * `_checkExists`: true when `key` holds a live entry, which is then promoted before
   * `add` fails; an expired entry under `key` is deleted on the way.
   */
  function CheckExists(e: Engine, key: Key, now: int): (r: Step<bool>)
    requires Valid(e)
    ensures r.result <==> Live(e, key, now)
    ensures Valid(r.engine)
    ensures r.result ==> r.engine == PushItemUpfront(e, e.items[key], now)
    ensures !r.result ==> r.engine == Retrieve(e, key, now).engine && key !in r.engine.items
  {
    if key !in e.items then Step(e, false)
    else
      var r := Retrieve(e, key, now);
      if r.result.Err? then Step(r.engine, false)
      else Step(PushItemUpfront(r.engine, r.result.value, now), true)
  }

  /** The condition under which the capacity check schedules an active-expiration sweep. */
  predicate SweepDue(e: Engine, now: int)
  {
    e.expireSetItems > 0 && e.lastCheck + EXPIRE_INTERVAL < now
  }

  /**
   * `_checkCapacity`: when the cache holds `capacity` keys or more, the first (least
   * recently used) key is deleted whatever its expiry; the result says whether a sweep
   * is scheduled.
   */
  function CheckCapacity(e: Engine, now: int): (r: Step<bool>)
    ensures r.result == SweepDue(r.engine, now)
    ensures |e.order| < e.capacity ==> r.engine == e
    ensures |e.order| >= e.capacity && e.order != [] ==>
              && e.order[0] !in r.engine.items && r.engine.items.Keys <= e.items.Keys
              && r.engine.expireSetItems == e.expireSetItems
              && r.engine.lastCheck == e.lastCheck
    ensures Valid(e) ==> Valid(r.engine)
  {
    var e1 := if |e.order| >= e.capacity && e.order != [] then MapDelete(e, e.order[0]) else e;
    Step(e1, SweepDue(e1, now))
  }

  // ---------------------------------------------------------------------------
  // The public operations

  /** `flush`. */
  function Flush(e: Engine): (r: Step<bool>)
    ensures r.result && Valid(r.engine) && Size(r.engine) == 0 && r.engine.expireSetItems == 0
    ensures r.engine.capacity == e.capacity && r.engine.lastCheck == e.lastCheck
  {
    Step(e.(order := [], items := map[], expireSetItems := 0), true)
  }

  /** `get`. */
  function Get(e: Engine, key: Key, now: int): (r: Step<Result<Value>>)
    requires Valid(e)
    ensures r.result.Ok? <==> Live(e, key, now)
    ensures Valid(r.engine)
    ensures r.result.Ok? ==> r.result.value == e.items[key].value
    ensures r.result.Ok? ==> r.engine.order == Except(e.order, {key}) + [key]
    ensures r.result.Ok? ==> r.engine.items == e.items[key := e.items[key].(lastUsed := now)]
    ensures r.result.Err? ==> r.result.error == NotFound(key) && r.engine == Retrieve(e, key, now).engine
  {
    var s := Retrieve(e, key, now);
    match s.result
    case Err(err) => Step(s.engine, Err(err))
    case Ok(entry) => Step(PushItemUpfront(s.engine, entry, now), Ok(entry.value))
  }

  /** `stat`: the entry's bookkeeping, leaving the recency order alone. */
  function StatOf(e: Engine, key: Key, now: int): (r: Step<Result<Stat>>)
    requires Valid(e)
    ensures r.result.Ok? <==> Live(e, key, now)
    ensures r.result.Ok? ==> r.engine == e
    ensures r.result.Ok? ==> r.result.value == Stat(e.items[key].lastUsed, e.items[key].expire)
    ensures r.result.Err? ==> r.result.error == NotFound(key) && r.engine == Retrieve(e, key, now).engine
  {
    var s := Retrieve(e, key, now);
    match s.result
    case Err(err) => Step(s.engine, Err(err))
    case Ok(entry) => Step(s.engine, Ok(Stat(entry.lastUsed, entry.expire)))
  }

  /** `add`. */
  function Add(e: Engine, key: Key, value: Value, expire: int, now: int): (r: Step<Admission>)
    requires Valid(e)
    ensures r.result.outcome.Ok? <==> !Live(e, key, now)
    ensures r.result.outcome.Err? ==>
              && r.result.outcome.error == AlreadyExists(key) && !r.result.sweepScheduled
              && r.engine == PushItemUpfront(e, e.items[key], now)
    ensures r.result.outcome.Ok? ==>
              r.result.outcome.value && key in r.engine.items && r.engine.items[key].value == value
    ensures Valid(r.engine)
  {
    var c := CheckExists(e, key, now);
    if c.result then
      Step(c.engine, Admission(Err(AlreadyExists(key)), false))
    else
      var x := SetExpiration(c.engine, expire, Entry(key, value, now, NO_EXPIRY), now);
      var cap := CheckCapacity(x.engine, now);
      Step(MapSet(cap.engine, x.result), Admission(Ok(true), cap.result))
  }

  /** `set`. */
  function Set(e: Engine, key: Key, value: Value, expire: int, now: int): (r: Step<Result<bool>>)
    requires Valid(e)
    ensures r.result.Ok? <==> Live(e, key, now)
    ensures Valid(r.engine)
    ensures r.result.Ok? ==> r.result.value
    ensures r.result.Err? ==> r.result.error == NotFound(key) && r.engine == Retrieve(e, key, now).engine
  {
    var s := Retrieve(e, key, now);
    match s.result
    case Err(err) => Step(s.engine, Err(err))
    case Ok(entry) =>
      var x := SetExpiration(s.engine, expire, entry.(value := value), now);
      Step(PushItemUpfront(x.engine, x.result, now), Ok(true))
  }

  /** `remove`. */
  function Remove(e: Engine, key: Key, now: int): (r: Step<Result<bool>>)
    requires Valid(e)
    ensures r.result.Ok? <==> Live(e, key, now)
    ensures Valid(r.engine)
    ensures r.result.Ok? ==> r.result.value && r.engine == MapDelete(e, key)
    ensures r.result.Err? ==> r.result.error == NotFound(key) && r.engine == Retrieve(e, key, now).engine
  {
    var s := Retrieve(e, key, now);
    match s.result
    case Err(err) => Step(s.engine, Err(err))
    case Ok(entry) => Step(MapDelete(s.engine, entry.key), Ok(true))
  }

  // ---------------------------------------------------------------------------
  // Active expiration (`_checkExpired`)

  function Min(a: real, b: real): real
  {
    if a <= b then a else b
  }

  /** The number of removals after which the sweep stops: a third of the capacity or the counter. */
  function SweepTarget(e: Engine): real
  {
    Min(e.capacity as real / 3.0, e.expireSetItems as real)
  }

  /**
   * The sweep's loop over `keys`, a snapshot of the key order taken when it started
   * (deleting the current key does not disturb a Map iterator); `count` keys are gone
   * so far. A visited key counts as gone when its entry is missing or expired.
   */
  function SweepWalk(e: Engine, keys: seq<Key>, now: int, target: real, count: nat): (r: Step<nat>)
    ensures r.result >= count && r.engine.items.Keys <= e.items.Keys
    ensures r.engine.capacity == e.capacity && r.engine.lastCheck == e.lastCheck
    ensures Valid(e) ==> Valid(r.engine)
    decreases |keys|
  {
    if keys == [] then Step(e, count)
    else
      var c := CheckExpiration(e, Lookup(e, keys[0]), now);
      var count' := if c.result.None? then count + 1 else count;
      if count' as real >= target then Step(c.engine, count')
      else SweepWalk(c.engine, keys[1..], now, target, count')
  }

  /** `_checkExpired`: stamp `lastCheck`, then walk from the least recently used key. */
  function Sweep(e: Engine, now: int): (r: Step<nat>)
    ensures r.engine.lastCheck == now && r.engine.capacity == e.capacity
    ensures r.engine.items.Keys <= e.items.Keys
    ensures Valid(e) ==> Valid(r.engine)
  {
    SweepWalk(e.(lastCheck := now), e.order, now, SweepTarget(e), 0)
  }
}
