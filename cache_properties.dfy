/**
 * What the cache engine of benchmark/MapCache.js guarantees, proved about the functional
 * model in CacheSpec: the key order stays duplicate-free and in step with the entries,
 * `size() <= capacity` is kept, the expiry counter never falls below the number of
 * entries that carry an expiry (while it can drift above it), what each operation does
 * to the order, the round trip `add` then `get`, and what the sweep removes.
 */
module CacheProperties {
  import opened CacheSpec

  // ---------------------------------------------------------------------------
  // Sequences of keys

  lemma {:induction false} ExceptNone(s: seq<Key>, ks: set<Key>)
    requires forall x :: x in s ==> x !in ks
    ensures Except(s, ks) == s
    decreases |s|
  {
    if s != [] {
      ExceptNone(s[1..], ks);
    }
  }

  lemma {:induction false} ExceptLength(s: seq<Key>, k: Key)
    requires Distinct(s)
    ensures |Except(s, {k})| == if k in s then |s| - 1 else |s|
    decreases |s|
  {
    if s != [] {
      assert Distinct(s[1..]);
      ExceptLength(s[1..], k);
      if s[0] == k {
        ExceptNone(s[1..], {k});
      }
    }
  }

  lemma {:induction false} ExceptExcept(s: seq<Key>, a: set<Key>, b: set<Key>)
    ensures Except(Except(s, a), b) == Except(s, a + b)
    decreases |s|
  {
    if s != [] {
      ExceptExcept(s[1..], a, b);
      if s[0] !in a {
        assert Except(s, a) == [s[0]] + Except(s[1..], a);
        assert (Except(s, a))[1..] == Except(s[1..], a);
      }
    }
  }

  lemma {:induction false} ExceptSame(s: seq<Key>, a: set<Key>, b: set<Key>)
    requires forall x :: x in s ==> (x in a <==> x in b)
    ensures Except(s, a) == Except(s, b)
    decreases |s|
  {
    if s != [] {
      ExceptSame(s[1..], a, b);
    }
  }

  /** Deleting the first key of a duplicate-free order drops exactly that key. */
  lemma ExceptFirst(s: seq<Key>)
    requires Distinct(s) && s != []
    ensures Except(s, {s[0]}) == s[1..]
  {
    assert forall x :: x in s[1..] ==> x != s[0];
    ExceptNone(s[1..], {s[0]});
  }

  /** Deleting the key at position `i` of a duplicate-free order closes the gap it leaves. */
  lemma {:induction false} ExceptAt(s: seq<Key>, i: int)
    requires Distinct(s) && 0 <= i < |s|
    ensures Except(s, {s[i]}) == s[..i] + s[i + 1..]
    decreases |s|
  {
    if i == 0 {
      ExceptFirst(s);
    } else {
      var t := s[1..];
      assert Distinct(t) && t[i - 1] == s[i] && s[0] != s[i];
      assert Except(s, {s[i]}) == [s[0]] + Except(t, {s[i]});
      ExceptAt(t, i - 1);
      GapTail(s, i);
    }
  }

  /** Closing the gap at `i > 0` keeps the first element in front. */
  lemma GapTail<T>(s: seq<T>, i: int)
    requires 0 < i < |s|
    ensures s[..i] + s[i + 1..] == [s[0]] + (s[1..][..i - 1] + s[1..][i..])
  {
    assert s[1..][..i - 1] == s[1..i] && s[1..][i..] == s[i + 1..];
    assert s[..i] == [s[0]] + s[1..i];
  }

  /** Deleting the key at position `i` of the order closes the gap it leaves. */
  lemma DropAt(e: Engine, i: int)
    requires Valid(e) && 0 <= i < |e.order|
    ensures MapDelete(e, e.order[i]) == e.(order := e.order[..i] + e.order[i + 1..], items := e.items - {e.order[i]})
  {
    ExceptAt(e.order, i);
  }

  /** Promoting the key at position `i` moves it from there to the end, stamped `now`. */
  lemma PushAt(e: Engine, i: int, entry: Entry, now: int)
    requires Valid(e) && 0 <= i < |e.order| && entry.key == e.order[i]
    ensures PushItemUpfront(e, entry, now) ==
            e.(order := e.order[..i] + e.order[i + 1..] + [entry.key],
               items := e.items[entry.key := entry.(lastUsed := now)])
  {
    DropAt(e, i);
    assert (e.items - {entry.key})[entry.key := entry.(lastUsed := now)]
        == e.items[entry.key := entry.(lastUsed := now)];
  }

  /** A duplicate-free sequence has as many elements as the set of its elements. */
  lemma {:induction false} DistinctCard(s: seq<Key>)
    requires Distinct(s)
    ensures |set x | x in s| == |s|
  {
    if s != [] {
      DistinctCard(s[1..]);
      assert (set x | x in s) == {s[0]} + (set x | x in s[1..]);
      assert s[0] !in s[1..];
    }
  }

  /** `size()` is the length of the key order: the number of distinct stored keys. */
  lemma SizeCountsKeys(e: Engine)
    requires Valid(e)
    ensures Size(e) == |e.items.Keys|
  {
    DistinctCard(e.order);
    assert (set x | x in e.order) == e.items.Keys;
  }

  // ---------------------------------------------------------------------------
  // Counting entries that carry an expiry

  /** The number of keys of `s` whose entry carries an expiry (`expire >= 0`). */
  function CountExpiring(s: seq<Key>, items: map<Key, Entry>): nat
    decreases |s|
  {
    if s == [] then 0
    else (if s[0] in items && items[s[0]].expire >= 0 then 1 else 0) + CountExpiring(s[1..], items)
  }

  function Expiring(e: Engine, k: Key): nat
  {
    if k in e.items && e.items[k].expire >= 0 then 1 else 0
  }

  function ExpiringEntries(e: Engine): nat
  {
    CountExpiring(e.order, e.items)
  }

  /** `expireSetItems` is at least the number of stored entries that carry an expiry. */
  predicate CounterCovers(e: Engine)
  {
    e.expireSetItems >= ExpiringEntries(e)
  }

  /** The invariant every operation keeps. */
  predicate Inv(e: Engine)
  {
    Valid(e) && CounterCovers(e)
  }

  /** `size() <= capacity`. */
  predicate Bounded(e: Engine)
  {
    Size(e) <= e.capacity
  }

  lemma {:induction false} CountFrame(s: seq<Key>, items: map<Key, Entry>, items': map<Key, Entry>)
    requires forall k :: k in s ==>
               ((k in items && items[k].expire >= 0) <==> (k in items' && items'[k].expire >= 0))
    ensures CountExpiring(s, items) == CountExpiring(s, items')
    decreases |s|
  {
    if s != [] {
      CountFrame(s[1..], items, items');
    }
  }

  lemma {:induction false} CountExcept(s: seq<Key>, k: Key, items: map<Key, Entry>)
    requires Distinct(s)
    ensures CountExpiring(Except(s, {k}), items) ==
            CountExpiring(s, items) - (if k in s && k in items && items[k].expire >= 0 then 1 else 0)
    decreases |s|
  {
    if s != [] {
      assert Distinct(s[1..]);
      CountExcept(s[1..], k, items);
      if s[0] == k {
        ExceptNone(s[1..], {k});
      } else {
        assert Except(s, {k}) == [s[0]] + Except(s[1..], {k});
        assert (Except(s, {k}))[1..] == Except(s[1..], {k});
      }
    }
  }

  lemma {:induction false} CountAppend(s: seq<Key>, k: Key, items: map<Key, Entry>)
    ensures CountExpiring(s + [k], items) ==
            CountExpiring(s, items) + (if k in items && items[k].expire >= 0 then 1 else 0)
    decreases |s|
  {
    if s == [] {
      assert [] + [k] == [k];
    } else {
      assert (s + [k])[1..] == s[1..] + [k];
      CountAppend(s[1..], k, items);
    }
  }

  // ---------------------------------------------------------------------------
  // The Map primitives

  lemma MapDeleteFacts(e: Engine, k: Key)
    requires Valid(e)
    ensures Valid(MapDelete(e, k))
    ensures Size(MapDelete(e, k)) == Size(e) - (if k in e.items then 1 else 0)
    ensures ExpiringEntries(MapDelete(e, k)) == ExpiringEntries(e) - Expiring(e, k)
  {
    ExceptLength(e.order, k);
    CountExcept(e.order, k, e.items);
    CountFrame(Except(e.order, {k}), e.items, e.items - {k});
  }

  lemma MapSetFacts(e: Engine, entry: Entry)
    requires Valid(e) && entry.key !in e.items
    ensures Valid(MapSet(e, entry))
    ensures MapSet(e, entry).order == e.order + [entry.key]
    ensures Size(MapSet(e, entry)) == Size(e) + 1
    ensures ExpiringEntries(MapSet(e, entry)) == ExpiringEntries(e) + (if entry.expire >= 0 then 1 else 0)
  {
    var e' := MapSet(e, entry);
    CountAppend(e.order, entry.key, e'.items);
    CountFrame(e.order, e.items, e'.items);
  }

  /** Promotion keeps the keys, moves one to the most recently used end and stamps it. */
  lemma PushFacts(e: Engine, entry: Entry, now: int)
    requires Valid(e) && entry.key in e.items
    ensures var e' := PushItemUpfront(e, entry, now);
      && Valid(e')
      && e'.order == Except(e.order, {entry.key}) + [entry.key]
      && e'.items == e.items[entry.key := entry.(lastUsed := now)]
      && Size(e') == Size(e)
      && ExpiringEntries(e') ==
           ExpiringEntries(e) - Expiring(e, entry.key) + (if entry.expire >= 0 then 1 else 0)
      && e'.expireSetItems == e.expireSetItems
      && e'.capacity == e.capacity && e'.lastCheck == e.lastCheck
  {
    MapDeleteFacts(e, entry.key);
    MapSetFacts(MapDelete(e, entry.key), entry.(lastUsed := now));
    assert (e.items - {entry.key})[entry.key := entry.(lastUsed := now)]
        == e.items[entry.key := entry.(lastUsed := now)];
  }

  /** A failed lookup deletes an expired entry and decrements the counter by exactly one. */
  lemma RetrieveFacts(e: Engine, key: Key, now: int)
    requires Inv(e)
    ensures var r := Retrieve(e, key, now);
      && Inv(r.engine)
      && r.engine.capacity == e.capacity && r.engine.lastCheck == e.lastCheck
      && (key in e.items && Expired(e.items[key], now) ==>
            Size(r.engine) == Size(e) - 1 && r.engine.expireSetItems == e.expireSetItems - 1)
      && Size(r.engine) <= Size(e)
      && (key !in r.engine.items ==> r.result.Err?)
  {
    if key in e.items && Expired(e.items[key], now) {
      MapDeleteFacts(e, key);
      assert Expiring(e, key) == 1;
    }
  }

  // ---------------------------------------------------------------------------
  // Each operation keeps the invariant and the capacity bound

  lemma GetPreservesInvariant(e: Engine, key: Key, now: int)
    requires Inv(e)
    ensures Inv(Get(e, key, now).engine)
    ensures Bounded(e) ==> Bounded(Get(e, key, now).engine)
  {
    RetrieveFacts(e, key, now);
    if Live(e, key, now) {
      PushFacts(e, e.items[key], now);
    }
  }

  lemma StatPreservesInvariant(e: Engine, key: Key, now: int)
    requires Inv(e)
    ensures Inv(StatOf(e, key, now).engine)
    ensures Bounded(e) ==> Bounded(StatOf(e, key, now).engine)
  {
    RetrieveFacts(e, key, now);
  }

  lemma SetPreservesInvariant(e: Engine, key: Key, value: Value, expire: int, now: int)
    requires Inv(e)
    ensures Inv(Set(e, key, value, expire, now).engine)
    ensures Bounded(e) ==> Bounded(Set(e, key, value, expire, now).engine)
  {
    RetrieveFacts(e, key, now);
    if Live(e, key, now) {
      var entry := e.items[key].(value := value);
      var x := SetExpiration(e, expire, entry, now);
      PushFacts(x.engine, x.result, now);
    }
  }

  lemma RemovePreservesInvariant(e: Engine, key: Key, now: int)
    requires Inv(e)
    ensures Inv(Remove(e, key, now).engine)
    ensures Bounded(e) ==> Bounded(Remove(e, key, now).engine)
  {
    RetrieveFacts(e, key, now);
    if Live(e, key, now) {
      MapDeleteFacts(e, key);
    }
  }

  lemma FlushPreservesInvariant(e: Engine)
    ensures Inv(Flush(e).engine) && ExpiringEntries(Flush(e).engine) == 0
  {
  }

  /**
   * The insertion half of `add`, on an engine where the key is absent: the expiry is
   * set, the capacity check runs, the entry is appended.
   */
  lemma InsertFacts(c: Engine, key: Key, value: Value, expire: int, now: int)
    requires Valid(c) && key !in c.items
    ensures var x := SetExpiration(c, expire, Entry(key, value, now, NO_EXPIRY), now);
            var cap := CheckCapacity(x.engine, now);
            var e' := MapSet(cap.engine, x.result);
      && Valid(e')
      && Size(e') <= Size(c) + 1
      && (Size(c) <= c.capacity && c.capacity >= 1 ==> Size(e') <= c.capacity)
      && e'.expireSetItems - ExpiringEntries(e') >= c.expireSetItems - ExpiringEntries(c)
  {
    var x := SetExpiration(c, expire, Entry(key, value, now, NO_EXPIRY), now);
    var cap := CheckCapacity(x.engine, now);
    if |x.engine.order| >= x.engine.capacity && x.engine.order != [] {
      MapDeleteFacts(x.engine, x.engine.order[0]);
    }
    assert key !in cap.engine.items;
    MapSetFacts(cap.engine, x.result);
    assert x.result.expire >= 0 ==> expire > 0;
  }

  /** With a capacity of at least one, `add` never takes the cache above its capacity. */
  lemma AddPreservesInvariant(e: Engine, key: Key, value: Value, expire: int, now: int)
    requires Inv(e)
    ensures Inv(Add(e, key, value, expire, now).engine)
    ensures Bounded(e) && e.capacity >= 1 ==> Bounded(Add(e, key, value, expire, now).engine)
  {
    RetrieveFacts(e, key, now);
    var c := CheckExists(e, key, now);
    if c.result {
      PushFacts(e, e.items[key], now);
    } else {
      InsertFacts(c.engine, key, value, expire, now);
    }
  }

  // ---------------------------------------------------------------------------
  // What `add` does

  /** `add` on a live key fails, keeps the value, promotes the key and schedules nothing. */
  lemma AddConflict(e: Engine, key: Key, value: Value, expire: int, now: int)
    requires Valid(e) && Live(e, key, now)
    ensures var r := Add(e, key, value, expire, now);
      && r.result == Admission(Err(AlreadyExists(key)), false)
      && r.engine.items == e.items[key := e.items[key].(lastUsed := now)]
      && r.engine.items[key].value == e.items[key].value
      && r.engine.order == Except(e.order, {key}) + [key]
      && r.engine.expireSetItems == e.expireSetItems
  {
    PushFacts(e, e.items[key], now);
  }

  /**
   * `add` on an absent or expired key: after the lazy deletion of an expired entry, a full
   * cache loses its first (least recently used) key, then the new entry goes last, stamped
   * `now`; a positive TTL increments the counter; a sweep is scheduled exactly when the
   * counter is positive and the last sweep is more than EXPIRE_INTERVAL old.
   */
  lemma AddInsert(e: Engine, key: Key, value: Value, expire: int, now: int)
    requires Valid(e) && !Live(e, key, now)
    ensures var e1 := Retrieve(e, key, now).engine;
            var r := Add(e, key, value, expire, now);
      && r.result.outcome == Ok(true)
      && (r.result.sweepScheduled <==> SweepDue(r.engine, now))
      && r.engine.items[key] == Entry(key, value, now, ExpireAt(expire, now))
      && r.engine.expireSetItems == e1.expireSetItems + (if expire > 0 then 1 else 0)
      && r.engine.lastCheck == e.lastCheck
      && (if Size(e1) >= e.capacity && e1.order != [] then
            r.engine.order == e1.order[1..] + [key]
            && r.engine.items == (e1.items - {e1.order[0]})[key := r.engine.items[key]]
          else
            r.engine.order == e1.order + [key]
            && r.engine.items == e1.items[key := r.engine.items[key]])
  {
    var e1 := Retrieve(e, key, now).engine;
    if key in e.items {
      MapDeleteFacts(e, key);
    }
    if Size(e1) >= e.capacity && e1.order != [] {
      ExceptFirst(e1.order);
    }
  }

  // ---------------------------------------------------------------------------
  // What `set` and `remove` do to the counter

  /**
   * A successful `set` overwrites the value, promotes the key and, for a positive TTL,
   * replaces the expiry and increments the counter even when the entry was already counted.
   */
  lemma SetUpdates(e: Engine, key: Key, value: Value, expire: int, now: int)
    requires Valid(e) && Live(e, key, now)
    ensures var r := Set(e, key, value, expire, now);
      && r.result == Ok(true)
      && r.engine.items == e.items[key :=
           Entry(key, value, now, if expire > 0 then ExpireAt(expire, now) else e.items[key].expire)]
      && r.engine.order == Except(e.order, {key}) + [key]
      && r.engine.expireSetItems == e.expireSetItems + (if expire > 0 then 1 else 0)
  {
    var x := SetExpiration(e, expire, e.items[key].(value := value), now);
    PushFacts(x.engine, x.result, now);
  }

  /** A successful `remove` deletes exactly its key and leaves the counter alone. */
  lemma RemoveKeepsCounter(e: Engine, key: Key, now: int)
    requires Valid(e) && Live(e, key, now)
    ensures var r := Remove(e, key, now);
      && r.result == Ok(true)
      && r.engine.items == e.items - {key}
      && Size(r.engine) == Size(e) - 1
      && r.engine.expireSetItems == e.expireSetItems
  {
    MapDeleteFacts(e, key);
  }

  /**
   * The counter is not an exact count: an entry added with a TTL and then removed leaves
   * the counter at one with nothing stored.
   */
  lemma CounterDrift(now: int)
    ensures var e0 := Empty(3);
            var a := Add(e0, "k", "v", 60, now);
            var r := Remove(a.engine, "k", now);
      && r.result == Ok(true)
      && Size(r.engine) == 0 && ExpiringEntries(r.engine) == 0
      && r.engine.expireSetItems == 1
  {
    var e0 := Empty(3);
    var a := Add(e0, "k", "v", 60, now);
    AddInsert(e0, "k", "v", 60, now);
    assert a.engine.items["k"].expire == now + 60000;
    assert a.engine.order == ["k"];
    RemoveKeepsCounter(a.engine, "k", now);
    assert Except(["k"], {"k"}) == [];
  }

  // ---------------------------------------------------------------------------
  // Round trip

  /**
   * An entry just added is read back with its value by a later `get`, as long as its TTL
   * has not run out, and the read stamps it with the time of the read.
   */
  lemma AddThenGet(e: Engine, key: Key, value: Value, expire: int, now: int, later: int)
    requires Valid(e) && !Live(e, key, now)
    requires now <= later
    requires expire > 0 ==> later <= now + expire * 1000
    ensures var a := Add(e, key, value, expire, now);
            var g := Get(a.engine, key, later);
      && a.result.outcome == Ok(true)
      && g.result == Ok(value)
      && g.engine.items[key].lastUsed == later >= now
      && g.engine.order[|g.engine.order| - 1] == key
  {
    AddInsert(e, key, value, expire, now);
    AddPreservesValid(e, key, value, expire, now);
  }

  lemma AddPreservesValid(e: Engine, key: Key, value: Value, expire: int, now: int)
    requires Valid(e)
    ensures Valid(Add(e, key, value, expire, now).engine)
  {
    var c := CheckExists(e, key, now);
    if key in e.items && Expired(e.items[key], now) {
      MapDeleteFacts(e, key);
    }
    if c.result {
      PushFacts(e, e.items[key], now);
    } else {
      InsertFacts(c.engine, key, value, expire, now);
    }
  }

  // ---------------------------------------------------------------------------
  // Filling a cache

  /** `add` of each key of `ks` in turn, all at time `now` and without TTL. */
  function AddAll(e: Engine, ks: seq<Key>, now: int): (r: Engine)
    requires Valid(e)
    ensures Valid(r)
    decreases |ks|
  {
    if ks == [] then e
    else
      AddPreservesValid(e, ks[0], "", 0, now);
      AddAll(Add(e, ks[0], "", 0, now).engine, ks[1..], now)
  }

  /** `add` of an absent key into a cache with room: the entry is appended, nothing is evicted. */
  lemma AddNew(e: Engine, k: Key, v: Value, expire: int, now: int)
    requires Valid(e) && k !in e.items && (Size(e) < e.capacity || e.order == [])
    ensures var r := Add(e, k, v, expire, now);
      && r.engine == e.(order := e.order + [k],
                        items := e.items[k := Entry(k, v, now, ExpireAt(expire, now))],
                        expireSetItems := e.expireSetItems + (if expire > 0 then 1 else 0))
      && r.result == Admission(Ok(true), SweepDue(r.engine, now))
  {
    AddInsert(e, k, v, expire, now);
  }

  /** `add` of an absent key into a full cache: the first key is evicted, the entry appended. */
  lemma AddEvict(e: Engine, k: Key, v: Value, expire: int, now: int)
    requires Valid(e) && k !in e.items && Size(e) >= e.capacity && e.order != []
    ensures var r := Add(e, k, v, expire, now);
      && r.engine == e.(order := e.order[1..] + [k],
                        items := (e.items - {e.order[0]})[k := Entry(k, v, now, ExpireAt(expire, now))],
                        expireSetItems := e.expireSetItems + (if expire > 0 then 1 else 0))
      && r.result == Admission(Ok(true), SweepDue(r.engine, now))
  {
    AddInsert(e, k, v, expire, now);
  }

  /** One step of AddAll, in the terms AddAllKeepsLast needs. */
  lemma AddAllStep(e: Engine, k: Key, now: int)
    requires Valid(e) && e.capacity >= 1 && Size(e) <= e.capacity && k !in e.items
    ensures var e' := Add(e, k, "", 0, now).engine;
      && Valid(e') && e'.capacity == e.capacity && Size(e') <= e'.capacity
      && e'.order == (if Size(e) == e.capacity then e.order[1..] else e.order) + [k]
  {
    if Size(e) == e.capacity {
      AddEvict(e, k, "", 0, now);
    } else {
      AddNew(e, k, "", 0, now);
    }
  }

  /** The key order after appending each of `ks` to `s` under a bound of `cap` keys, oldest dropped first. */
  function Window(s: seq<Key>, ks: seq<Key>, cap: int): seq<Key>
    decreases |ks|
  {
    if ks == [] then s
    else Window((if |s| >= cap && s != [] then s[1..] else s) + [ks[0]], ks[1..], cap)
  }

  /** AddAll moves the key order exactly as Window does. */
  lemma {:induction false} AddAllOrder(e: Engine, ks: seq<Key>, now: int)
    requires Valid(e) && e.capacity >= 1 && Size(e) <= e.capacity
    requires Distinct(e.order + ks)
    ensures AddAll(e, ks, now).order == Window(e.order, ks, e.capacity)
    decreases |ks|
  {
    if ks != [] {
      KeepLastShift(e.order, ks, e.capacity);
      AddAllStep(e, ks[0], now);
      var e' := Add(e, ks[0], "", 0, now).engine;
      assert AddAll(e, ks, now) == AddAll(e', ks[1..], now);
      AddAllOrder(e', ks[1..], now);
    }
  }

  /** Window keeps the last `cap` keys of `s + ks`. */
  lemma {:induction false} WindowKeepsLast(s: seq<Key>, ks: seq<Key>, cap: int)
    requires cap >= 1 && |s| <= cap && Distinct(s + ks)
    ensures var all := s + ks;
      Window(s, ks, cap) == all[if |all| > cap then |all| - cap else 0..]
    decreases |ks|
  {
    if ks == [] {
      assert s + ks == s;
    } else {
      KeepLastShift(s, ks, cap);
      WindowKeepsLast((if |s| >= cap && s != [] then s[1..] else s) + [ks[0]], ks[1..], cap);
    }
  }

  /**
   * Adding distinct keys to a cache of capacity C >= 1 keeps exactly the last C keys of
   * the old order followed by the added ones, least recently added first.
   */
  lemma AddAllKeepsLast(e: Engine, ks: seq<Key>, now: int)
    requires Valid(e) && e.capacity >= 1 && Size(e) <= e.capacity
    requires Distinct(e.order + ks)
    ensures var all := e.order + ks;
      AddAll(e, ks, now).order == all[if |all| > e.capacity then |all| - e.capacity else 0..]
  {
    AddAllOrder(e, ks, now);
    WindowKeepsLast(e.order, ks, e.capacity);
  }

  /** The window of the last `cap` keys is the same before and after one step of AddAll. */
  lemma KeepLastShift(s: seq<Key>, ks: seq<Key>, cap: int)
    requires cap >= 1 && |s| <= cap && ks != [] && Distinct(s + ks)
    ensures ks[0] !in s
    ensures var s' := (if |s| == cap then s[1..] else s) + [ks[0]];
            var all := s + ks;
            var all' := s' + ks[1..];
      && Distinct(all')
      && all'[if |all'| > cap then |all'| - cap else 0..] == all[if |all| > cap then |all| - cap else 0..]
  {
    var all := s + ks;
    assert ks[0] !in s by {
      assert all[|s|] == ks[0];
      forall i | 0 <= i < |s| ensures s[i] != ks[0] {
        assert all[i] == s[i];
      }
    }
    var s' := (if |s| == cap then s[1..] else s) + [ks[0]];
    if |s| == cap {
      assert s' + ks[1..] == all[1..];
    } else {
      assert s' + ks[1..] == all;
    }
  }

  // ---------------------------------------------------------------------------
  // The active-expiration sweep

  /** The walk deletes only expired keys it visits and leaves every other entry and its place alone. */
  lemma {:induction false} SweepWalkFrame(e: Engine, keys: seq<Key>, now: int, target: real, count: nat)
    requires Valid(e)
    ensures var r := SweepWalk(e, keys, now, target, count);
      && Valid(r.engine)
      && r.engine.capacity == e.capacity && r.engine.lastCheck == e.lastCheck
      && (forall k :: k in r.engine.items ==> k in e.items && r.engine.items[k] == e.items[k])
      && (forall k :: k in e.items && k !in r.engine.items ==> k in keys && Expired(e.items[k], now))
      && r.engine.order == Except(e.order, e.items.Keys - r.engine.items.Keys)
      && r.result >= count
    decreases |keys|
  {
    var r := SweepWalk(e, keys, now, target, count);
    if keys == [] {
      ExceptNone(e.order, {});
      assert e.items.Keys - r.engine.items.Keys == {};
    } else {
      var k := keys[0];
      var c := CheckExpiration(e, Lookup(e, k), now);
      var count' := if c.result.None? then count + 1 else count;
      if count' as real >= target {
        if c.result.None? && k in e.items {
          ExceptSame(e.order, {k}, e.items.Keys - r.engine.items.Keys);
        } else {
          ExceptNone(e.order, {});
          assert e.items.Keys - r.engine.items.Keys == {};
        }
      } else {
        SweepWalkFrame(c.engine, keys[1..], now, target, count');
        if c.result.None? && k in e.items {
          ExceptExcept(e.order, {k}, c.engine.items.Keys - r.engine.items.Keys);
          ExceptSame(e.order, {k} + (c.engine.items.Keys - r.engine.items.Keys),
                     e.items.Keys - r.engine.items.Keys);
        }
      }
    }
  }

  /**
   * When the visited keys are distinct stored keys, each counted key is one deletion: the
   * size, the counter and the number of entries with an expiry all drop by the count.
   */
  lemma {:induction false} SweepWalkCount(e: Engine, keys: seq<Key>, now: int, target: real, count: nat)
    requires Valid(e) && Distinct(keys)
    requires forall k :: k in keys ==> k in e.items
    ensures var r := SweepWalk(e, keys, now, target, count);
      && Size(e) - Size(r.engine) == r.result - count
      && e.expireSetItems - r.engine.expireSetItems == r.result - count
      && ExpiringEntries(e) - ExpiringEntries(r.engine) == r.result - count
    decreases |keys|
  {
    if keys != [] {
      var k := keys[0];
      var c := CheckExpiration(e, Lookup(e, k), now);
      var count' := if c.result.None? then count + 1 else count;
      if c.result.None? {
        MapDeleteFacts(e, k);
        assert Expiring(e, k) == 1;
      }
      if count' as real < target {
        assert Distinct(keys[1..]);
        forall k' | k' in keys[1..] ensures k' in c.engine.items {
          assert k' != k;
        }
        SweepWalkCount(c.engine, keys[1..], now, target, count');
      }
    }
  }

  /** A walk that ends below its target has deleted every expired entry among the visited keys. */
  lemma {:induction false} SweepWalkExhaustive(e: Engine, keys: seq<Key>, now: int, target: real, count: nat)
    requires Valid(e)
    ensures var r := SweepWalk(e, keys, now, target, count);
      r.result as real < target ==>
        forall k :: k in keys && k in e.items && Expired(e.items[k], now) ==> k !in r.engine.items
    decreases |keys|
  {
    if keys != [] {
      var k := keys[0];
      var c := CheckExpiration(e, Lookup(e, k), now);
      var count' := if c.result.None? then count + 1 else count;
      if count' as real < target {
        SweepWalkExhaustive(c.engine, keys[1..], now, target, count');
        SweepWalkFrame(c.engine, keys[1..], now, target, count');
      }
    }
  }

  /**
   * The walk deletes expired entries in the order it visits them: when it has deleted the
   * key at place `j`, it has deleted every expired key before it.
   */
  lemma {:induction false} SweepWalkInOrder(e: Engine, keys: seq<Key>, now: int, target: real, count: nat, i: int, j: int)
    requires Valid(e) && Distinct(keys) && 0 <= i < j < |keys|
    requires keys[i] in e.items && Expired(e.items[keys[i]], now)
    requires keys[j] in e.items && keys[j] !in SweepWalk(e, keys, now, target, count).engine.items
    ensures keys[i] !in SweepWalk(e, keys, now, target, count).engine.items
    decreases |keys|
  {
    var r := SweepWalk(e, keys, now, target, count);
    var k := keys[0];
    var c := CheckExpiration(e, Lookup(e, k), now);
    var count' := if c.result.None? then count + 1 else count;
    assert Valid(c.engine) && (c.engine.items == e.items - {k} || c.engine.items == e.items) by {
      if k in e.items && Expired(e.items[k], now) {
        assert c.engine.items == e.items - {k};
      }
    }
    assert keys[j] != k && keys[j] in c.engine.items;
    if count' as real < target {
      assert r == SweepWalk(c.engine, keys[1..], now, target, count');
      if i == 0 {
        assert c.engine.items == e.items - {k};
        SweepWalkFrame(c.engine, keys[1..], now, target, count');
      } else {
        assert keys[i] != k && keys[1..][i - 1] == keys[i] && keys[1..][j - 1] == keys[j];
        SweepWalkInOrder(c.engine, keys[1..], now, target, count', i - 1, j - 1);
      }
    }
  }

  /**
   * The sweep stamps `lastCheck`, deletes only expired entries, leaves the other entries
   * and their order as they were, decrements the counter once per deletion and returns
   * the number of deletions; when it returns fewer than its target, no expired entry is
   * left, and when it stops at its target the entries it deleted are the least recently
   * used expired ones. It keeps the invariant and the capacity bound.
   */
  lemma SweepFacts(e: Engine, now: int)
    requires Inv(e)
    ensures var r := Sweep(e, now);
      && Inv(r.engine)
      && (Bounded(e) ==> Bounded(r.engine))
      && r.engine.lastCheck == now && r.engine.capacity == e.capacity
      && (forall k :: k in r.engine.items ==> k in e.items && r.engine.items[k] == e.items[k])
      && (forall k :: k in e.items && k !in r.engine.items ==> Expired(e.items[k], now))
      && r.engine.order == Except(e.order, e.items.Keys - r.engine.items.Keys)
      && r.result == Size(e) - Size(r.engine)
      && r.engine.expireSetItems == e.expireSetItems - r.result
      && (r.result as real < SweepTarget(e) ==>
            forall k :: k in e.items && Expired(e.items[k], now) ==> k !in r.engine.items)
      && (forall i, j :: 0 <= i < j < |e.order| && Expired(e.items[e.order[i]], now) && e.order[j] !in r.engine.items ==>
            e.order[i] !in r.engine.items)
  {
    var e0 := e.(lastCheck := now);
    SweepWalkFrame(e0, e.order, now, SweepTarget(e), 0);
    SweepWalkCount(e0, e.order, now, SweepTarget(e), 0);
    SweepWalkExhaustive(e0, e.order, now, SweepTarget(e), 0);
    forall i, j | 0 <= i < j < |e.order| && Expired(e.items[e.order[i]], now) && e.order[j] !in Sweep(e, now).engine.items
      ensures e.order[i] !in Sweep(e, now).engine.items
    {
      SweepWalkInOrder(e0, e.order, now, SweepTarget(e), 0, i, j);
    }
  }

  lemma {:induction false} SweepWalkBound(e: Engine, keys: seq<Key>, now: int, target: real, count: nat)
    requires count == 0 || count as real < target
    ensures var r := SweepWalk(e, keys, now, target, count);
      r.result <= 1 || (r.result - 1) as real < target
    decreases |keys|
  {
    if keys != [] {
      var c := CheckExpiration(e, Lookup(e, keys[0]), now);
      var count' := if c.result.None? then count + 1 else count;
      if count' as real < target {
        SweepWalkBound(c.engine, keys[1..], now, target, count');
      }
    }
  }

  /** The sweep stops as soon as its count reaches the target: it never goes a whole deletion past it. */
  lemma SweepStopsAtTarget(e: Engine, now: int)
    ensures var r := Sweep(e, now);
      r.result <= 1 || (r.result - 1) as real < SweepTarget(e)
  {
    SweepWalkBound(e.(lastCheck := now), e.order, now, SweepTarget(e), 0);
  }
}
