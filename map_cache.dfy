/**
 * The cache engine as the class benchmark/MapCache.js writes it: a JavaScript `Map` from
 * key to item, whose insertion order doubles as the recency order, plus the counter of
 * items that were given an expiry and the time of the last active-expiration sweep.
 *
 * The `Map` is the pair `order` (its key order) and `items` (its contents); each method
 * updates them step by step as the JavaScript method does, and its postcondition says
 * the new state and the result are exactly those of the CacheSpec function of the same
 * name. What those functions guarantee is proved in CacheProperties.
 */
module MapCacheEngine {
  import opened CacheSpec
  import CacheProperties

  class MapCache {
    const capacity: int
    var order: seq<Key>
    var items: map<Key, Entry>
    var expireSetItems: int
    var lastCheck: int

    /** The whole state as a value of the functional model. */
    function State(): Engine
      reads this
    {
      Engine(capacity, order, items, expireSetItems, lastCheck)
    }

    predicate Valid()
      reads this
    {
      CacheSpec.Valid(State())
    }

    constructor (capacity: int)
      ensures Valid() && State() == Empty(capacity)
    {
      this.capacity := capacity;
      order := [];
      items := map[];
      expireSetItems := 0;
      lastCheck := 0;
    }

    // -------------------------------------------------------------------------
    // The two Map primitives

    /** `this.map.delete(key)`. */
    method MapDelete(key: Key)
      modifies this
      ensures State() == CacheSpec.MapDelete(old(State()), key)
    {
      order := Except(order, {key});
      items := items - {key};
    }

    /** `this.map.set(entry.key, entry)`. */
    method MapSet(entry: Entry)
      modifies this
      ensures State() == CacheSpec.MapSet(old(State()), entry)
    {
      if entry.key !in items {
        order := order + [entry.key];
      }
      items := items[entry.key := entry];
    }

    // -------------------------------------------------------------------------
    // The private helpers

    /** `_checkExpiration`. */
    method CheckExpiration(item: Option<Entry>, now: int) returns (r: Option<Entry>)
      modifies this
      ensures Step(State(), r) == CacheSpec.CheckExpiration(old(State()), item, now)
    {
      if item.Some? && item.value.expire >= 0 && item.value.expire < now {
        MapDelete(item.value.key);
        expireSetItems := expireSetItems - 1;
        return None;
      }
      return item;
    }

    /** `_retrieve`: a NotFound result is the thrown "Key ... not found". */
    method Retrieve(key: Key, now: int) returns (r: Result<Entry>)
      requires Valid()
      modifies this
      ensures Valid()
      ensures Step(State(), r) == CacheSpec.Retrieve(old(State()), key, now)
    {
      var item := CheckExpiration(Lookup(State(), key), now);
      if item.None? {
        return Err(NotFound(key));
      }
      return Ok(item.value);
    }

    /** `_setExpiration`: returns the item with its expiry set. */
    method SetExpiration(expire: int, item: Entry, now: int) returns (r: Entry)
      modifies this
      ensures Step(State(), r) == CacheSpec.SetExpiration(old(State()), expire, item, now)
    {
      r := item;
      if expire > 0 {
        r := r.(expire := now + expire * 1000);
        expireSetItems := expireSetItems + 1;
      }
    }

    /** `_pushItemUpfront`. */
    method PushItemUpfront(item: Entry, now: int)
      modifies this
      ensures State() == CacheSpec.PushItemUpfront(old(State()), item, now)
    {
      MapDelete(item.key);
      MapSet(item.(lastUsed := now));
    }

    /** `_checkExists`: true when `add` must throw "Key ... already exists". */
    method CheckExists(key: Key, now: int) returns (exists_: bool)
      requires Valid()
      modifies this
      ensures Valid()
      ensures Step(State(), exists_) == CacheSpec.CheckExists(old(State()), key, now)
    {
      if key !in items {
        return false;
      }
      var existing := Retrieve(key, now);
      if existing.Ok? {
        PushItemUpfront(existing.value, now);
        return true;
      }
      return false;
    }

    /** `_checkCapacity`: the result says whether `_checkExpired` is scheduled. */
    method CheckCapacity(now: int) returns (sweepScheduled: bool)
      modifies this
      ensures Step(State(), sweepScheduled) == CacheSpec.CheckCapacity(old(State()), now)
    {
      if |order| >= capacity && order != [] {
        MapDelete(order[0]);
      }
      sweepScheduled := expireSetItems > 0 && lastCheck + EXPIRE_INTERVAL < now;
    }

    // -------------------------------------------------------------------------
    // The public operations

    method Flush() returns (r: bool)
      modifies this
      ensures Step(State(), r) == CacheSpec.Flush(old(State()))
    {
      order := [];
      items := map[];
      expireSetItems := 0;
      return true;
    }

    /** `size`: the number of keys in the Map. */
    method Size() returns (n: nat)
      requires Valid()
      ensures n == |items.Keys|
    {
      n := |order|;
      CacheProperties.SizeCountsKeys(State());
    }

    method Get(key: Key, now: int) returns (r: Result<Value>)
      requires Valid()
      modifies this
      ensures Valid()
      ensures Step(State(), r) == CacheSpec.Get(old(State()), key, now)
    {
      var item := Retrieve(key, now);
      if item.Err? {
        return Err(item.error);
      }
      PushItemUpfront(item.value, now);
      return Ok(item.value.value);
    }

    method Stat(key: Key, now: int) returns (r: Result<CacheSpec.Stat>)
      requires Valid()
      modifies this
      ensures Valid()
      ensures Step(State(), r) == StatOf(old(State()), key, now)
    {
      var item := Retrieve(key, now);
      if item.Err? {
        return Err(item.error);
      }
      return Ok(CacheSpec.Stat(item.value.lastUsed, item.value.expire));
    }

    /** `add`; `sweepScheduled` stands for the `setImmediate` of `_checkExpired`. */
    method Add(key: Key, value: Value, expire: int, now: int) returns (r: Result<bool>, sweepScheduled: bool)
      requires Valid()
      modifies this
      ensures Valid()
      ensures Step(State(), Admission(r, sweepScheduled)) == CacheSpec.Add(old(State()), key, value, expire, now)
    {
      var exists_ := CheckExists(key, now);
      if exists_ {
        return Err(AlreadyExists(key)), false;
      }
      var newItem := Entry(key, value, now, NO_EXPIRY);
      newItem := SetExpiration(expire, newItem, now);
      sweepScheduled := CheckCapacity(now);
      MapSet(newItem);
      r := Ok(true);
    }

    method Set(key: Key, value: Value, expire: int, now: int) returns (r: Result<bool>)
      requires Valid()
      modifies this
      ensures Valid()
      ensures Step(State(), r) == CacheSpec.Set(old(State()), key, value, expire, now)
    {
      var item := Retrieve(key, now);
      if item.Err? {
        return Err(item.error);
      }
      var updated := SetExpiration(expire, item.value.(value := value), now);
      PushItemUpfront(updated, now);
      return Ok(true);
    }

    method Remove(key: Key, now: int) returns (r: Result<bool>)
      requires Valid()
      modifies this
      ensures Valid()
      ensures Step(State(), r) == CacheSpec.Remove(old(State()), key, now)
    {
      var item := Retrieve(key, now);
      if item.Err? {
        return Err(item.error);
      }
      MapDelete(item.value.key);
      return Ok(true);
    }

    /**
     * One turn of the sweep's loop: `_checkExpiration` on the item under `keys[i]`,
     * counted if it went.
     */
    method Visit(keys: seq<Key>, i: nat, now: int, ghost target: real, count: nat) returns (count': nat)
      requires Valid() && i < |keys|
      modifies this
      ensures Valid()
      ensures SweepWalk(old(State()), keys[i..], now, target, count) ==
                if count' as real >= target then Step(State(), count')
                else SweepWalk(State(), keys[i + 1..], now, target, count')
    {
      var item := CheckExpiration(Lookup(State(), keys[i]), now);
      count' := if item.None? then count + 1 else count;
      assert keys[i..][0] == keys[i] && keys[i..][1..] == keys[i + 1..];
    }

    /**
     * `_checkExpired`: stamps `lastCheck`, then walks the keys from the least recently
     * used one, deleting expired items, until `count` reaches the target. `count` is what
     * the JavaScript method logs.
     */
    method CheckExpired(now: int) returns (count: nat)
      requires Valid()
      modifies this
      ensures Valid()
      ensures Step(State(), count) == Sweep(old(State()), now)
    {
      lastCheck := now;
      var target := Min(capacity as real / 3.0, expireSetItems as real);
      count := Walk(order, now, target);
    }

    /**
     * The loop of `_checkExpired`. The Map iterator survives the deletion of the current
     * key, so the walk is over the key order as it was when the loop started.
     */
    method Walk(keys: seq<Key>, now: int, target: real) returns (count: nat)
      requires Valid()
      modifies this
      ensures Valid()
      ensures Step(State(), count) == SweepWalk(old(State()), keys, now, target, 0)
    {
      count := 0;
      var i := 0;
      while i < |keys|
        invariant 0 <= i <= |keys|
        invariant Valid()
        invariant SweepWalk(State(), keys[i..], now, target, count) == SweepWalk(old(State()), keys, now, target, 0)
        decreases |keys| - i
      {
        count := Visit(keys, i, now, target, count);
        if count as real >= target {
          return;
        }
        i := i + 1;
      }
    }
  }
}
