/**
 * What benchmark/ObjectCache.js does where it departs from the engine of
 * benchmark/MapCache.js, stated on the values of CacheSpec.
 *
 * ObjectCache keeps the same entries in a doubly linked list (most recently used next to
 * the head sentinel, least recently used next to the tail sentinel) indexed by a plain
 * object. Read as an `Engine`, `order` is the list from the tail end to the head end and
 * `items` is the index. Four of its lines behave differently from MapCache:
 *   - `size()` reads `this.map.length`, a property a plain object does not have;
 *   - `_checkCapacity` tests `this.map.size`, also missing, so no entry is ever evicted;
 *   - the eviction it guards deletes `this[item.key]` instead of `this.map[item.key]`;
 *   - `_checkExpired` follows `item.prev` after `_checkExpiration` has returned null.
 * Each is modelled here as written, next to a lemma that shows the difference from the
 * engine of CacheSpec, which is the corrected behaviour.
 */
module ObjectCacheSpec {
  import opened CacheSpec
  import CacheProperties

  // ---------------------------------------------------------------------------
  // size()

  /**
   * `size()` as written: `this.map.length` is the entry stored under the key "length"
   * when there is one, and undefined (None) otherwise.
   */
  function SizeAsWritten(e: Engine): (r: Option<Entry>)
    ensures r.Some? <==> "length" in e.items
    ensures Valid(e) && r.Some? ==> r.value.key == "length"
  {
    if "length" in e.items then Some(e.items["length"]) else None
  }

  /** A cache holding one entry answers `size()` with undefined instead of 1. */
  lemma SizeAsWrittenUndefined(now: int)
    ensures var e := AddAsWritten(Empty(10), "a", "x", 0, now).engine;
            Size(e) == 1 && |e.items.Keys| == 1 && SizeAsWritten(e) == None
  {
    var e := AddAsWritten(Empty(10), "a", "x", 0, now).engine;
    AddAsWrittenNew(Empty(10), "a", "x", 0, now);
    CacheProperties.SizeCountsKeys(e);
  }

  /** `size()` is undefined on every cache that does not store the key "length". */
  lemma SizeAsWrittenNeverCounts(e: Engine)
    requires Valid(e) && "length" !in e.items
    ensures SizeAsWritten(e) == None
    ensures Size(e) == |e.items.Keys|
  {
    CacheProperties.SizeCountsKeys(e);
  }

  // ---------------------------------------------------------------------------
  // add() without eviction

  /**
   * `_checkCapacity` as written: `this.map.size >= this.capacity` compares undefined with
   * a number, which is false, so only the scheduling of the sweep remains.
   */
  function CheckCapacityAsWritten(e: Engine, now: int): (r: Step<bool>)
    ensures r.engine == e
    ensures r.result <==> e.expireSetItems > 0 && e.lastCheck + EXPIRE_INTERVAL < now
  {
    Step(e, SweepDue(e, now))
  }

  /** `add` as written: CacheSpec.Add with the capacity check above. */
  function AddAsWritten(e: Engine, key: Key, value: Value, expire: int, now: int): (r: Step<Admission>)
    requires Valid(e)
    ensures Valid(r.engine)
  {
    var c := CheckExists(e, key, now);
    if c.result then
      Step(c.engine, Admission(Err(AlreadyExists(key)), false))
    else
      var x := SetExpiration(c.engine, expire, Entry(key, value, now, NO_EXPIRY), now);
      var cap := CheckCapacityAsWritten(x.engine, now);
      Step(MapSet(cap.engine, x.result), Admission(Ok(true), cap.result))
  }

  /** Adding an absent key appends it as most recently used, whatever the capacity. */
  lemma AddAsWrittenNew(e: Engine, k: Key, v: Value, expire: int, now: int)
    requires Valid(e) && k !in e.items
    ensures var r := AddAsWritten(e, k, v, expire, now);
            && r.engine == e.(order := e.order + [k],
                              items := e.items[k := Entry(k, v, now, ExpireAt(expire, now))],
                              expireSetItems := e.expireSetItems + (if expire > 0 then 1 else 0))
            && r.result == Admission(Ok(true), SweepDue(r.engine, now))
  {
  }

  /** `add` never removes another key: every other entry survives unchanged. */
  lemma AddAsWrittenKeepsOthers(e: Engine, key: Key, value: Value, expire: int, now: int)
    requires Valid(e)
    ensures var r := AddAsWritten(e, key, value, expire, now);
            && (forall k :: k in e.items && k != key ==> k in r.engine.items && r.engine.items[k] == e.items[k])
            && Size(r.engine) == Size(e) + (if key in e.items then 0 else 1)
  {
    var c := CheckExists(e, key, now);
    if key in e.items {
      CacheProperties.ExceptLength(e.order, key);
      if !c.result {
        var x := SetExpiration(c.engine, expire, Entry(key, value, now, NO_EXPIRY), now);
        CacheProperties.MapSetFacts(x.engine, x.result);
      } else {
        CacheProperties.PushFacts(e, e.items[key], now);
      }
    } else {
      AddAsWrittenNew(e, key, value, expire, now);
    }
  }

  /** Below capacity the written `add` and the engine's `add` coincide. */
  lemma AddAsWrittenBelowCapacity(e: Engine, key: Key, value: Value, expire: int, now: int)
    requires Valid(e) && Size(e) < e.capacity
    ensures AddAsWritten(e, key, value, expire, now) == Add(e, key, value, expire, now)
  {
    var c := CheckExists(e, key, now);
    if !c.result && key in e.items {
      CacheProperties.ExceptLength(e.order, key);
    }
  }

  /**
   * On a full cache a new key makes the written `add` grow past the capacity, while the
   * engine's `add` evicts the least recently used key and keeps the size.
   */
  lemma AddAsWrittenOverflows(e: Engine, key: Key, value: Value, expire: int, now: int)
    requires Valid(e) && key !in e.items && Size(e) >= e.capacity && e.order != []
    ensures Size(AddAsWritten(e, key, value, expire, now).engine) == Size(e) + 1
    ensures Size(Add(e, key, value, expire, now).engine) == Size(e)
  {
    AddAsWrittenNew(e, key, value, expire, now);
    CacheProperties.AddEvict(e, key, value, expire, now);
  }

  /** The eviction line as written: the item leaves the list but stays in the index. */
  function EvictAsWritten(e: Engine): (r: Engine)
    requires e.order != []
    ensures r.items == e.items && |r.order| == |e.order| - 1
  {
    e.(order := e.order[1..])
  }

  /**
   * Were the capacity test repaired, the written eviction would leave the evicted key in
   * the index without a place in the list, so the engine would no longer be well formed;
   * deleting it from the index as well (CacheSpec.MapDelete) keeps it well formed.
   */
  lemma EvictAsWrittenLeavesIndex(e: Engine)
    requires Valid(e) && e.order != []
    ensures e.order[0] in EvictAsWritten(e).items && e.order[0] !in EvictAsWritten(e).order
    ensures !Valid(EvictAsWritten(e))
    ensures Valid(MapDelete(e, e.order[0])) && Size(MapDelete(e, e.order[0])) == Size(e) - 1
  {
    assert e.order[0] !in e.order[1..] by {
      forall i | 0 <= i < |e.order[1..]| ensures e.order[1..][i] != e.order[0] {
        assert e.order[1..][i] == e.order[i + 1];
      }
    }
    CacheProperties.MapDeleteFacts(e, e.order[0]);
  }

  // ---------------------------------------------------------------------------
  // _checkExpired() that follows null

  /** How the written sweep ends: normally with its count, or with a TypeError. */
  datatype SweepRun = Finished(count: nat) | Crashed

  /**
   * The written sweep's loop over the listed keys, from the tail end: after an expired
   * item is unlinked `item` is null, so unless the target is already met the next
   * `item.prev` throws. Reaching the head sentinel (`keys == []`) ends the loop normally,
   * because the sentinel never expires and has no `prev`.
   */
  function SweepWalkAsWritten(e: Engine, keys: seq<Key>, now: int, target: real, count: nat): (r: Step<SweepRun>)
    ensures r.result.Finished? ==> r.result.count >= count
    ensures r.engine.items.Keys <= e.items.Keys
    ensures r.engine.capacity == e.capacity && r.engine.lastCheck == e.lastCheck
    ensures Valid(e) ==> Valid(r.engine)
    decreases |keys|
  {
    if keys == [] then Step(e, Finished(count))
    else
      var c := CheckExpiration(e, Lookup(e, keys[0]), now);
      var count' := if c.result.None? then count + 1 else count;
      if count' as real >= target then Step(c.engine, Finished(count'))
      else if c.result.None? then Step(c.engine, Crashed)
      else SweepWalkAsWritten(c.engine, keys[1..], now, target, count')
  }

  /** `_checkExpired` as written. */
  function SweepAsWritten(e: Engine, now: int): (r: Step<SweepRun>)
    ensures r.engine.lastCheck == now && r.engine.capacity == e.capacity
    ensures r.engine.items.Keys <= e.items.Keys
    ensures Valid(e) ==> Valid(r.engine)
  {
    SweepWalkAsWritten(e.(lastCheck := now), e.order, now, SweepTarget(e), 0)
  }

  predicate SomeExpired(e: Engine, keys: seq<Key>, now: int)
    requires forall k :: k in keys ==> k in e.items
  {
    exists k :: k in keys && Expired(e.items[k], now)
  }

  lemma {:induction false} SweepWalkAsWrittenCrash(e: Engine, keys: seq<Key>, now: int, target: real)
    requires Valid(e) && target > 0.0
    requires forall k :: k in keys ==> k in e.items
    ensures var r := SweepWalkAsWritten(e, keys, now, target, 0);
            && (r.result.Crashed? <==> target > 1.0 && SomeExpired(e, keys, now))
            && (r.result.Finished? ==> r.result.count <= 1)
    decreases |keys|
  {
    if keys != [] {
      var c := CheckExpiration(e, Lookup(e, keys[0]), now);
      if c.result.Some? {
        SweepWalkAsWrittenCrash(e, keys[1..], now, target);
        if SomeExpired(e, keys, now) {
          var k :| k in keys && Expired(e.items[k], now);
          assert k in keys[1..];
        }
        if SomeExpired(e, keys[1..], now) {
          var k :| k in keys[1..] && Expired(e.items[k], now);
          assert k in keys;
        }
      } else {
        assert keys[0] in keys;
      }
    }
  }

  /**
   * The written sweep throws exactly when its target exceeds one and some listed entry
   * has expired; otherwise it stops having removed at most one entry.
   */
  lemma SweepAsWrittenCrash(e: Engine, now: int)
    requires Valid(e)
    ensures var r := SweepAsWritten(e, now);
            && (r.result.Crashed? <==> SweepTarget(e) > 1.0 && SomeExpired(e, e.order, now))
            && (r.result.Finished? ==> r.result.count <= 1)
            && Size(r.engine) >= Size(e) - 1
  {
    var e0 := e.(lastCheck := now);
    if SweepTarget(e) > 0.0 {
      SweepWalkAsWrittenCrash(e0, e.order, now, SweepTarget(e));
    }
    SweepWalkAsWrittenDropsOne(e0, e.order, now, SweepTarget(e));
  }

  lemma {:induction false} SweepWalkAsWrittenDropsOne(e: Engine, keys: seq<Key>, now: int, target: real)
    requires Valid(e)
    ensures var r := SweepWalkAsWritten(e, keys, now, target, 0);
            && Size(r.engine) >= Size(e) - 1
            && (target <= 0.0 ==> r.result.Finished? && r.result.count <= 1)
    decreases |keys|
  {
    if keys != [] {
      var c := CheckExpiration(e, Lookup(e, keys[0]), now);
      if c.result.Some? {
        SweepWalkAsWrittenDropsOne(e, keys[1..], now, target);
      } else if keys[0] in e.items {
        CacheProperties.MapDeleteFacts(e, keys[0]);
      }
    }
  }

  lemma {:induction false} SweepWalkAsWrittenAgrees(e: Engine, keys: seq<Key>, now: int, target: real)
    requires Valid(e)
    requires forall k :: k in keys ==> k in e.items
    ensures var r := SweepWalkAsWritten(e, keys, now, target, 0);
            r.result.Finished? ==> Step(r.engine, r.result.count) == SweepWalk(e, keys, now, target, 0)
    decreases |keys|
  {
    if keys != [] {
      var c := CheckExpiration(e, Lookup(e, keys[0]), now);
      if c.result.Some? && 0.0 < target {
        SweepWalkAsWrittenAgrees(e, keys[1..], now, target);
      }
    }
  }

  /** Whenever the written sweep does not throw, it does what the engine's sweep does. */
  lemma SweepAsWrittenAgrees(e: Engine, now: int)
    requires Valid(e)
    ensures var r := SweepAsWritten(e, now);
            r.result.Finished? ==> Step(r.engine, r.result.count) == Sweep(e, now)
  {
    SweepWalkAsWrittenAgrees(e.(lastCheck := now), e.order, now, SweepTarget(e));
  }

  /**
   * Two expired entries in a cache of capacity six: the written sweep throws after the
   * first removal, where the engine's sweep removes both.
   */
  lemma SweepAsWrittenThrows(e: Engine, now: int)
    requires Valid(e) && e.capacity == 6 && e.expireSetItems == 2
    requires |e.order| == 2 && Expired(e.items[e.order[0]], now) && Expired(e.items[e.order[1]], now)
    ensures SweepAsWritten(e, now).result == Crashed
    ensures Sweep(e, now).result == 2
  {
    SweepAsWrittenCrash(e, now);
    assert SomeExpired(e, e.order, now) by { assert e.order[0] in e.order; }
    var e0 := e.(lastCheck := now);
    assert SweepTarget(e) == 2.0;
    var e1 := CheckExpiration(e0, Lookup(e0, e.order[0]), now).engine;
    assert e.order[1] in e1.items;
    assert Sweep(e, now) == SweepWalk(e1, e.order[1..], now, 2.0, 1);
  }
}
