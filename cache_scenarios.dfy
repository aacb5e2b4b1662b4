/**
 * The scenarios of the engine's test suite (test/cache.js), replayed on the functional
 * model for any distinct keys standing for the test's "t1", "t2", ... and any value
 * standing for "test". All calls of a test happen at `now`; a timer of 1100 ms moves the
 * clock to `now + 1100`.
 */
module CacheScenarios {
  import opened CacheSpec
  import opened CacheProperties

  /** "should throw if no key", "should add key". */
  lemma AddThenRead(t1: Key, v: Value, now: int)
    ensures Get(Empty(2), t1, now).result == Err(NotFound(t1))
    ensures Size(Add(Empty(2), t1, v, 0, now).engine) == 1
    ensures Get(Add(Empty(2), t1, v, 0, now).engine, t1, now).result == Ok(v)
  {
    AddNew(Empty(2), t1, v, 0, now);
    AddThenGet(Empty(2), t1, v, 0, now, now);
  }

  /** The messages of the two errors, for the test's key "t1". */
  lemma ErrorMessages()
    ensures AlreadyExists("t1").Message() == "Key t1 already exists"
    ensures NotFound("t1").Message() == "Key t1 not found"
  {
  }

  /** "should throw on add existing". */
  lemma AddExistingFails(t1: Key, v: Value, now: int)
    ensures var e1 := Add(Empty(2), t1, v, 0, now).engine;
      Add(e1, t1, v, 0, now).result.outcome == Err(AlreadyExists(t1))
  {
    AddToEmpty(2, t1, v, 0, now);
    var e1 := Engine(2, [t1], map[t1 := Entry(t1, v, now, NO_EXPIRY)], 0, 0);
    assert Valid(e1) && Live(e1, t1, now);
    AddConflict(e1, t1, v, 0, now);
  }

  // ---------------------------------------------------------------------------
  // Single steps on small caches written out entry by entry (last sweep at time 0)

  /** `add` into an empty cache. */
  lemma AddToEmpty(cap: int, a: Key, v: Value, expire: int, now: int)
    requires cap >= 1
    ensures Add(Empty(cap), a, v, expire, now).engine ==
            Engine(cap, [a], map[a := Entry(a, v, now, ExpireAt(expire, now))], if expire > 0 then 1 else 0, 0)
  {
    AddNew(Empty(cap), a, v, expire, now);
  }

  /** `add` of a second key into a cache with room for it. */
  lemma AddSecond(cap: int, a: Key, xa: Entry, b: Key, v: Value, expire: int, n: int, now: int)
    requires cap >= 2 && a != b && xa.key == a
    ensures var r := Add(Engine(cap, [a], map[a := xa], n, 0), b, v, expire, now);
      && r.engine == Engine(cap, [a, b], map[a := xa, b := Entry(b, v, now, ExpireAt(expire, now))],
                            n + (if expire > 0 then 1 else 0), 0)
      && r.result == Admission(Ok(true), SweepDue(r.engine, now))
  {
    var e := Engine(cap, [a], map[a := xa], n, 0);
    assert Valid(e);
    AddNew(e, b, v, expire, now);
    assert e.items[b := Entry(b, v, now, ExpireAt(expire, now))]
        == map[a := xa, b := Entry(b, v, now, ExpireAt(expire, now))];
  }

  /** `add` of a third key into a cache of capacity 2 evicts the first key. */
  lemma AddThirdEvicts(a: Key, xa: Entry, b: Key, xb: Entry, c: Key, v: Value, now: int)
    requires a != b && b != c && a != c && xa.key == a && xb.key == b
    ensures Add(Engine(2, [a, b], map[a := xa, b := xb], 0, 0), c, v, 0, now).engine ==
            Engine(2, [b, c], map[b := xb, c := Entry(c, v, now, NO_EXPIRY)], 0, 0)
  {
    var e := Engine(2, [a, b], map[a := xa, b := xb], 0, 0);
    assert Valid(e);
    AddEvict(e, c, v, 0, now);
    DropFirstOfTwo(a, xa, b, xb, c, Entry(c, v, now, NO_EXPIRY));
    assert [a, b][1..] + [c] == [b, c];
  }

  /** `get` of the first of two live keys moves it behind the other. */
  lemma GetFirstOfTwo(a: Key, xa: Entry, b: Key, xb: Entry, now: int)
    requires a != b && xa.key == a && xb.key == b && xa.lastUsed == now && !Expired(xa, now)
    ensures Get(Engine(2, [a, b], map[a := xa, b := xb], 0, 0), a, now).engine ==
            Engine(2, [b, a], map[b := xb, a := xa], 0, 0)
  {
    var e := Engine(2, [a, b], map[a := xa, b := xb], 0, 0);
    assert Valid(e);
    assert map[a := xa, b := xb] == map[b := xb, a := xa];
    assert Except([a, b], {a}) == [b] by {
      assert Except([b], {a}) == [b] by { assert [b][1..] == []; }
      assert [a, b][1..] == [b];
    }
  }

  /** A failed `add` of the first of two live keys moves it behind the other as well. */
  lemma AddFirstOfTwo(a: Key, xa: Entry, b: Key, xb: Entry, v: Value, now: int)
    requires a != b && xa.key == a && xb.key == b && xa.lastUsed == now && !Expired(xa, now)
    ensures Add(Engine(2, [a, b], map[a := xa, b := xb], 0, 0), a, v, 0, now) ==
            Step(Engine(2, [b, a], map[b := xb, a := xa], 0, 0), Admission(Err(AlreadyExists(a)), false))
  {
    var e := Engine(2, [a, b], map[a := xa, b := xb], 0, 0);
    assert Valid(e);
    AddConflict(e, a, v, 0, now);
    GetFirstOfTwo(a, xa, b, xb, now);
  }

  lemma DropFirstOfTwo(a: Key, xa: Entry, b: Key, xb: Entry, c: Key, xc: Entry)
    requires a != b && b != c && a != c
    ensures (map[a := xa, b := xb] - {a})[c := xc] == map[b := xb, c := xc]
  {
  }

  /** What `get` reads from a cache of two live keys. */
  lemma ReadsOfTwo(a: Key, b: Key, c: Key, v: Value, now: int, e: Engine)
    requires a != b && b != c && a != c
    requires e == Engine(2, [a, b], map[a := Entry(a, v, now, NO_EXPIRY), b := Entry(b, v, now, NO_EXPIRY)], 0, 0)
    ensures Valid(e) && Size(e) == 2
    ensures Get(e, a, now).result == Ok(v)
    ensures Get(e, b, now).result == Ok(v)
    ensures Get(e, c, now).result == Err(NotFound(c))
  {
    assert Valid(e);
    assert Live(e, a, now) && Live(e, b, now) && c !in e.items;
  }

  // ---------------------------------------------------------------------------
  // The scenarios

  /** "should add up to capacity", "should remove LRU first". */
  lemma EvictsLeastRecentlyUsed(t1: Key, t2: Key, t3: Key, v: Value, now: int)
    requires t1 != t2 && t2 != t3 && t1 != t3
    ensures var e1 := Add(Empty(2), t1, v, 0, now).engine;
            var e2 := Add(e1, t2, v, 0, now).engine;
            var e3 := Add(e2, t3, v, 0, now).engine;
      && Size(e3) == 2
      && Get(e3, t1, now).result == Err(NotFound(t1))
      && Get(e3, t2, now).result == Ok(v)
      && Get(e3, t3, now).result == Ok(v)
  {
    var x1, x2 := Entry(t1, v, now, NO_EXPIRY), Entry(t2, v, now, NO_EXPIRY);
    AddToEmpty(2, t1, v, 0, now);
    AddSecond(2, t1, x1, t2, v, 0, 0, now);
    AddThirdEvicts(t1, x1, t2, x2, t3, v, now);
    ReadsOfTwo(t2, t3, t1, v, now, Engine(2, [t2, t3], map[t2 := x2, t3 := Entry(t3, v, now, NO_EXPIRY)], 0, 0));
  }

  /** "should promote LRU on get". */
  lemma GetPromotes(t1: Key, t2: Key, t3: Key, v: Value, now: int)
    requires t1 != t2 && t2 != t3 && t1 != t3
    ensures var e1 := Add(Empty(2), t1, v, 0, now).engine;
            var e2 := Add(e1, t2, v, 0, now).engine;
            var e3 := Get(e2, t1, now).engine;
            var e4 := Add(e3, t3, v, 0, now).engine;
      && Get(e4, t1, now).result == Ok(v)
      && Get(e4, t2, now).result == Err(NotFound(t2))
      && Get(e4, t3, now).result == Ok(v)
  {
    var x1, x2 := Entry(t1, v, now, NO_EXPIRY), Entry(t2, v, now, NO_EXPIRY);
    AddToEmpty(2, t1, v, 0, now);
    AddSecond(2, t1, x1, t2, v, 0, 0, now);
    GetFirstOfTwo(t1, x1, t2, x2, now);
    AddThirdEvicts(t2, x2, t1, x1, t3, v, now);
    ReadsOfTwo(t1, t3, t2, v, now, Engine(2, [t1, t3], map[t1 := x1, t3 := Entry(t3, v, now, NO_EXPIRY)], 0, 0));
  }

  /** "should promote LRU on add existing": the failed add still moves t1 to the end. */
  lemma ConflictPromotes(t1: Key, t2: Key, t3: Key, v: Value, now: int)
    requires t1 != t2 && t2 != t3 && t1 != t3
    ensures var e1 := Add(Empty(2), t1, v, 0, now).engine;
            var e2 := Add(e1, t2, v, 0, now).engine;
            var e3 := Add(e2, t1, v, 0, now).engine;
            var e4 := Add(e3, t3, v, 0, now).engine;
      && Get(e4, t1, now).result == Ok(v)
      && Get(e4, t2, now).result == Err(NotFound(t2))
      && Get(e4, t3, now).result == Ok(v)
  {
    var x1, x2 := Entry(t1, v, now, NO_EXPIRY), Entry(t2, v, now, NO_EXPIRY);
    AddToEmpty(2, t1, v, 0, now);
    AddSecond(2, t1, x1, t2, v, 0, 0, now);
    AddFirstOfTwo(t1, x1, t2, x2, v, now);
    AddThirdEvicts(t2, x2, t1, x1, t3, v, now);
    ReadsOfTwo(t1, t3, t2, v, now, Engine(2, [t1, t3], map[t1 := x1, t3 := Entry(t3, v, now, NO_EXPIRY)], 0, 0));
  }

  /** "should support expire": the counter counts the TTL, and the lazy expiry undoes it. */
  lemma ExpiryOnRead(t1: Key, v: Value, now: int)
    requires now >= 0
    ensures var e1 := Add(Empty(2), t1, v, 1, now).engine;
            var g := Get(e1, t1, now + 1100);
      && e1.expireSetItems == 1
      && g.result == Err(NotFound(t1))
      && g.engine.expireSetItems == 0
      && Size(g.engine) == 0
  {
    AddToEmpty(2, t1, v, 1, now);
    assert Except([t1], {t1}) == [] by { assert [t1][1..] == []; }
  }

  /** "should allow add expired": an expired key can be added again. */
  lemma AddOverExpired(t1: Key, v: Value, now: int)
    requires now >= 0
    ensures var e1 := Add(Empty(2), t1, v, 1, now).engine;
            var e2 := Add(e1, t1, v, 0, now + 1100).engine;
      Get(e2, t1, now + 1100).result == Ok(v)
  {
    AddToEmpty(2, t1, v, 1, now);
    var e1 := Add(Empty(2), t1, v, 1, now).engine;
    assert !Live(e1, t1, now + 1100);
    AddThenGet(e1, t1, v, 0, now + 1100, now + 1100);
  }

  /** `add` of a third key into a cache of capacity 3 evicts nothing; it schedules a sweep when one is due. */
  lemma AddThirdKeeps(a: Key, xa: Entry, b: Key, xb: Entry, c: Key, v: Value, n: int, last: int, now: int)
    requires a != b && b != c && a != c && xa.key == a && xb.key == b
    ensures Add(Engine(3, [a, b], map[a := xa, b := xb], n, last), c, v, 0, now) ==
            Step(Engine(3, [a, b, c], map[a := xa, b := xb, c := Entry(c, v, now, NO_EXPIRY)], n, last),
                 Admission(Ok(true), n > 0 && last + EXPIRE_INTERVAL < now))
  {
    var e := Engine(3, [a, b], map[a := xa, b := xb], n, last);
    assert Valid(e);
    AddNew(e, c, v, 0, now);
  }

  /**
   * "should remove expired first", first half: with capacity 3, t1 and then t2 (TTL 1 s)
   * are added at `now`; adding t3 1100 ms later, after t2 expired, schedules a sweep
   * (the last one was at time 0, and the counter is 1).
   */
  lemma SweepScheduled(t1: Key, t2: Key, t3: Key, v: Value, now: int)
    requires t1 != t2 && t1 != t3 && t2 != t3
    requires now >= EXPIRE_INTERVAL
    ensures var e1 := Add(Empty(3), t1, v, 0, now).engine;
            var e2 := Add(e1, t2, v, 1, now).engine;
            var a3 := Add(e2, t3, v, 0, now + 1100);
      && a3.result.sweepScheduled
      && a3.engine.capacity == 3 && a3.engine.expireSetItems == 1
      && a3.engine.order == [t1, t2, t3]
      && a3.engine.items[t1] == Entry(t1, v, now, NO_EXPIRY)
      && a3.engine.items[t2].expire == now + 1000
  {
    var x1, x2 := Entry(t1, v, now, NO_EXPIRY), Entry(t2, v, now, now + 1000);
    AddToEmpty(3, t1, v, 0, now);
    AddSecond(3, t1, x1, t2, v, 1, 0, now);
    AddThirdKeeps(t1, x1, t2, x2, t3, v, 1, 0, now + 1100);
  }

  /**
   * "should remove expired first", second half, for any cache in the state the first half
   * ends in: the scheduled sweep deletes t2 and stops there (its target is one deletion),
   * so adding t4 evicts nothing and t1 survives although it is the least recently used key.
   */
  lemma SweepBeforeEviction(e3: Engine, t1: Key, t2: Key, t3: Key, t4: Key, v: Value, t: int)
    requires Valid(e3) && t4 !in e3.items
    requires e3.capacity == 3 && e3.expireSetItems == 1 && e3.order == [t1, t2, t3]
    requires !Expired(e3.items[t1], t) && Expired(e3.items[t2], t)
    ensures var s := Sweep(e3, t);
            var e4 := Add(s.engine, t4, v, 0, t).engine;
      && s.result == 1
      && s.engine.order == [t1, t3]
      && Live(e4, t1, t) && e4.items[t1] == e3.items[t1]
  {
    SweepSteps(e3, t1, t2, t3, t);
    var s := Sweep(e3, t);
    AddNew(s.engine, t4, v, 0, t);
  }

  /** The sweep of SweepBeforeEviction, one visited key at a time. */
  lemma SweepSteps(e: Engine, t1: Key, t2: Key, t3: Key, t: int)
    requires Valid(e) && e.order == [t1, t2, t3] && e.capacity == 3 && e.expireSetItems == 1
    requires !Expired(e.items[t1], t) && Expired(e.items[t2], t)
    ensures Sweep(e, t).result == 1
    ensures Sweep(e, t).engine.order == [t1, t3]
    ensures Sweep(e, t).engine.items == e.items - {t2}
    ensures Sweep(e, t).engine.capacity == 3
  {
    assert SweepTarget(e) == 1.0;
    var w0 := e.(lastCheck := t);
    assert CheckExpiration(w0, Lookup(w0, t1), t) == Step(w0, Some(e.items[t1]));
    var c2 := CheckExpiration(w0, Lookup(w0, t2), t);
    assert c2.result == None;
    assert SweepWalk(w0, [t2, t3], t, 1.0, 0) == Step(c2.engine, 1);
    assert [t1, t2, t3][1..] == [t2, t3];
    assert Except([t1, t2, t3], {t2}) == [t1, t3] by {
      assert [t2, t3][1..] == [t3];
      assert [t3][1..] == [];
      assert Except([t3], {t2}) == [t3];
      assert Except([t2, t3], {t2}) == [t3];
    }
  }
}
