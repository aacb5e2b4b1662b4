/**
 * One cache node (src/Node.js): `processOp` turns a command record into calls on the
 * node's cache and a reply record, and a node in mono mode answers its commands in
 * process. The node's cache is the MapCache engine (MapCacheEngine.MapCache), whose
 * behaviour the functional model CacheSpec gives; `Process` is `processOp` on that model.
 */
module CacheNode {
  import opened CacheSpec
  import MapCacheEngine
  import CacheProperties

  const DEFAULT_SERVER_HOST: string := "http://localhost"
  const DEFAULT_SERVER_PORT: nat := 12345

  /**
   * The command record `{op, key, value, expire}`. A field the sender left out is the
   * empty string (key, value) or 0 (expire): the cache treats an `expire` of 0 exactly as
   * an absent one.
   */
  datatype Command = Command(op: string, key: Key, value: Value, expire: int)

  /**
   * The reply records `processOp` builds; `Failure` is `{error, code}`. The reply to `set`
   * sends the whole stat record under the name `lastUsed` (`usage` here).
   */
  datatype Reply =
    | Done(done: bool)
    | Info(size: int, capacity: int, expiredSet: int)
    | Got(key: Key, value: Value, lastUsed: int, expire: int)
    | Created(key: Key, value: Value, created: bool)
    | Updated(key: Key, value: Value, usage: CacheSpec.Stat)
    | Removed(key: Key, removed: bool)
    | Failure(error: string, code: int)
    | Unsupported(error: string)

  /** The `code` of a reply, with 0 standing for an absent (falsy) one. */
  function Code(r: Reply): int
  {
    if r.Failure? then r.code else 0
  }

  /** The error text of a command `processOp` has no case for. */
  function NotSupported(op: string): string
  {
    "Operation " + op + " not supported"
  }

  /** The six operations `processOp` dispatches. */
  predicate Supported(op: string)
  {
    op in {"flush", "info", "get", "add", "set", "remove"}
  }

  /**
   * `processOp` on a cache in state `e`: each case calls the cache as the JavaScript does
   * and catches what it throws, with the code of that case.
   */
  function Process(e: Engine, c: Command, now: int): (r: Step<Reply>)
    requires Valid(e)
    ensures Valid(r.engine)
  {
    if c.op == "flush" then
      var f := Flush(e);
      Step(f.engine, Done(f.result))
    else if c.op == "info" then
      Step(e, Info(Size(e), e.capacity, e.expireSetItems))
    else if c.op == "get" then
      var g := Get(e, c.key, now);
      match g.result
      case Err(err) => Step(g.engine, Failure(err.Message(), 404))
      case Ok(v) =>
        var s := StatOf(g.engine, c.key, now);
        match s.result
        case Err(err) => Step(s.engine, Failure(err.Message(), 404))
        case Ok(st) => Step(s.engine, Got(c.key, v, st.lastUsed, st.expire))
    else if c.op == "add" then
      var a := Add(e, c.key, c.value, c.expire, now);
      match a.result.outcome
      case Err(err) => Step(a.engine, Failure(err.Message(), 400))
      case Ok(created) => Step(a.engine, Created(c.key, c.value, created))
    else if c.op == "set" then
      var u := Set(e, c.key, c.value, c.expire, now);
      match u.result
      case Err(err) => Step(u.engine, Failure(err.Message(), 404))
      case Ok(_) =>
        var s := StatOf(u.engine, c.key, now);
        match s.result
        case Err(err) => Step(s.engine, Failure(err.Message(), 404))
        case Ok(st) => Step(s.engine, Updated(c.key, c.value, st))
    else if c.op == "remove" then
      var d := Remove(e, c.key, now);
      match d.result
      case Err(err) => Step(d.engine, Failure(err.Message(), 404))
      case Ok(removed) => Step(d.engine, Removed(c.key, removed))
    else
      Step(e, Unsupported(NotSupported(c.op)))
  }

  /**
   * Which replies each operation can give: a reply carries a code exactly when the cache
   * threw, the code is 404 for the keyed reads and writes and 400 for `add`, and `flush`
   * and `info` never fail (the 500 branches cannot be reached with this cache).
   */
  lemma ProcessCodes(e: Engine, c: Command, now: int)
    requires Valid(e)
    ensures var r := Process(e, c, now).result;
      && (r.Failure? ==> c.op in {"get", "add", "set", "remove"})
      && (r.Failure? && c.op == "add" ==> r.code == 400 && r.error == AlreadyExists(c.key).Message())
      && (r.Failure? && c.op != "add" ==> r.code == 404 && r.error == NotFound(c.key).Message())
      && (r.Unsupported? <==> !Supported(c.op))
      && (Code(r) != 0 <==> r.Failure?)
  {
  }

  /** An operation outside the six leaves the cache alone and names itself, with no code. */
  lemma ProcessUnsupported(e: Engine, c: Command, now: int)
    requires Valid(e) && !Supported(c.op)
    ensures Process(e, c, now) == Step(e, Unsupported("Operation " + c.op + " not supported"))
    ensures Code(Process(e, c, now).result) == 0
  {
  }

  /**
   * `get` answers with the value and the stat of a live key, which is by then the most
   * recently used one, stamped `now`: the `stat` after a successful `get` cannot fail.
   */
  lemma ProcessGet(e: Engine, c: Command, now: int)
    requires Valid(e) && c.op == "get"
    ensures var r := Process(e, c, now);
      && (r.result.Got? <==> Live(e, c.key, now))
      && (r.result.Got? ==>
            && r.result == Got(c.key, e.items[c.key].value, now, e.items[c.key].expire)
            && r.engine == Get(e, c.key, now).engine)
      && (!r.result.Got? ==> r.result == Failure(NotFound(c.key).Message(), 404))
  {
    if Live(e, c.key, now) {
      CacheProperties.PushFacts(e, e.items[c.key], now);
    }
  }

  /** `set` on a live key answers with the new value and the key's new stat record. */
  lemma ProcessSet(e: Engine, c: Command, now: int)
    requires Valid(e) && c.op == "set"
    ensures var r := Process(e, c, now);
      && (r.result.Updated? <==> Live(e, c.key, now))
      && (r.result.Updated? ==>
            var st := Set(e, c.key, c.value, c.expire, now).engine.items[c.key];
            r.result == Updated(c.key, c.value, CacheSpec.Stat(now, st.expire)) && st.value == c.value)
      && (!r.result.Updated? ==> r.result == Failure(NotFound(c.key).Message(), 404))
  {
    var u := Set(e, c.key, c.value, c.expire, now);
    if Live(e, c.key, now) {
      CacheProperties.SetUpdates(e, c.key, c.value, c.expire, now);
      var st := u.engine.items[c.key];
      assert Live(u.engine, c.key, now);
      assert StatOf(u.engine, c.key, now) == Step(u.engine, Ok(CacheSpec.Stat(now, st.expire)));
      assert Process(e, c, now) == Step(u.engine, Updated(c.key, c.value, CacheSpec.Stat(now, st.expire)));
    } else {
      assert Process(e, c, now) == Step(u.engine, Failure(NotFound(c.key).Message(), 404));
    }
  }

  /** `add` creates an absent or expired key and refuses a live one with code 400. */
  lemma ProcessAdd(e: Engine, c: Command, now: int)
    requires Valid(e) && c.op == "add"
    ensures var r := Process(e, c, now);
      && (r.result == Created(c.key, c.value, true) <==> !Live(e, c.key, now))
      && (Live(e, c.key, now) ==> r.result == Failure(AlreadyExists(c.key).Message(), 400))
      && c.key in r.engine.items
  {
    if Live(e, c.key, now) {
      CacheProperties.AddConflict(e, c.key, c.value, c.expire, now);
    } else {
      CacheProperties.AddInsert(e, c.key, c.value, c.expire, now);
    }
  }

  /**
   * `remove` on a live key deletes exactly that key and answers `{key, removed: true}`;
   * otherwise it answers 404 "Key ... not found", and the key is absent afterwards.
   */
  lemma ProcessRemove(e: Engine, c: Command, now: int)
    requires Valid(e) && c.op == "remove"
    ensures var r := Process(e, c, now);
      && (r.result == Removed(c.key, true) <==> Live(e, c.key, now))
      && (Live(e, c.key, now) ==>
            r.engine == MapDelete(e, c.key) && Size(r.engine) == Size(e) - 1 && c.key !in r.engine.items)
      && (!Live(e, c.key, now) ==>
            r.result == Failure(NotFound(c.key).Message(), 404) && c.key !in r.engine.items)
  {
    var d := Remove(e, c.key, now);
    if d.result.Ok? {
      assert Process(e, c, now) == Step(d.engine, Removed(c.key, true));
      CacheProperties.MapDeleteFacts(e, c.key);
    } else {
      assert Process(e, c, now) == Step(d.engine, Failure(NotFound(c.key).Message(), 404));
      assert c.key !in d.engine.items;
    }
  }

  /** `flush` always answers `{done: true}` and empties the cache; `info` changes nothing. */
  lemma ProcessManage(e: Engine, now: int)
    requires Valid(e)
    ensures var f := Process(e, Command("flush", "", "", 0), now);
      f.result == Done(true) && Size(f.engine) == 0 && f.engine.expireSetItems == 0
    ensures Process(e, Command("info", "", "", 0), now) ==
      Step(e, Info(|e.items.Keys|, e.capacity, e.expireSetItems))
  {
    CacheProperties.SizeCountsKeys(e);
  }

  /** `processOp` on the node's cache: every throw of the cache is caught and coded. */
  method ProcessOp(c: Command, cache: MapCacheEngine.MapCache, now: int) returns (r: Reply)
    requires cache.Valid()
    modifies cache
    ensures cache.Valid()
    ensures Step(cache.State(), r) == Process(old(cache.State()), c, now)
  {
    if c.op == "flush" {
      var done := cache.Flush();
      return Done(done);
    } else if c.op == "info" {
      var size := cache.Size();
      CacheProperties.SizeCountsKeys(cache.State());
      return Info(size, cache.capacity, cache.expireSetItems);
    } else if c.op == "get" {
      var v := cache.Get(c.key, now);
      if v.Err? {
        return Failure(v.error.Message(), 404);
      }
      var st := cache.Stat(c.key, now);
      if st.Err? {
        return Failure(st.error.Message(), 404);
      }
      return Got(c.key, v.value, st.value.lastUsed, st.value.expire);
    } else if c.op == "add" {
      var created, _ := cache.Add(c.key, c.value, c.expire, now);
      if created.Err? {
        return Failure(created.error.Message(), 400);
      }
      return Created(c.key, c.value, created.value);
    } else if c.op == "set" {
      var u := cache.Set(c.key, c.value, c.expire, now);
      if u.Err? {
        return Failure(u.error.Message(), 404);
      }
      var st := cache.Stat(c.key, now);
      if st.Err? {
        return Failure(st.error.Message(), 404);
      }
      return Updated(c.key, c.value, st.value);
    } else if c.op == "remove" {
      var removed := cache.Remove(c.key, now);
      if removed.Err? {
        return Failure(removed.error.Message(), 404);
      }
      return Removed(c.key, removed.value);
    }
    return Unsupported(NotSupported(c.op));
  }

  /** The node's configuration; a host of "" and a port of 0 are falsy and take the default. */
  datatype Config = Config(name: string, host: string, port: nat, maxSize: int)

  /** The decimal digits of `n`. */
  function Decimal(n: nat): (s: string)
    ensures |s| >= 1
    ensures forall i :: 0 <= i < |s| ==> '0' <= s[i] <= '9'
  {
    if n < 10 then [(n + '0' as int) as char]
    else Decimal(n / 10) + [((n % 10) + '0' as int) as char]
  }

  /** `${config.host || DEFAULT_SERVER_HOST}:${config.port || DEFAULT_SERVER_PORT}/v1/`. */
  function ServerUrl(config: Config): (url: string)
    ensures config.host != "" ==> |url| > |config.host| && url[..|config.host|] == config.host
    ensures config.host == "" ==> |url| > |DEFAULT_SERVER_HOST| && url[..|DEFAULT_SERVER_HOST|] == DEFAULT_SERVER_HOST
    ensures |url| >= 4 && url[|url| - 4..] == "/v1/"
  {
    (if config.host == "" then DEFAULT_SERVER_HOST else config.host) + ":" +
    Decimal(if config.port == 0 then DEFAULT_SERVER_PORT else config.port) + "/v1/"
  }

  /** A configuration without host and port points at the local default server. */
  lemma ServerUrlDefault(name: string, maxSize: int)
    ensures ServerUrl(Config(name, "", 0, maxSize)) == "http://localhost:12345/v1/"
  {
    assert Decimal(1) == "1";
    assert Decimal(12) == "12";
    assert Decimal(123) == "123";
    assert Decimal(1234) == "1234";
    assert Decimal(12345) == "12345";
  }

  /** Where a command went: answered in process, or posted to the node's server. */
  datatype Delivery = Local(reply: Reply) | Remote(url: string, command: Command)

  class Node {
    const name: string
    const server: string
    const maxSize: int
    const mono: bool
    const cache: MapCacheEngine.MapCache

    constructor (config: Config, mono: bool)
      ensures name == config.name && server == ServerUrl(config) && maxSize == config.maxSize
      ensures this.mono == mono
      ensures fresh(cache) && cache.Valid() && cache.State() == Empty(config.maxSize)
    {
      name := config.name;
      server := ServerUrl(config);
      maxSize := config.maxSize;
      this.mono := mono;
      cache := new MapCacheEngine.MapCache(config.maxSize);
    }

    /**
     * `sendCommand`: in mono mode the reply is `processOp` on the node's own cache;
     * otherwise the command is posted to `server`, and the remote reply is not modelled.
     */
    method SendCommand(command: Command, now: int) returns (d: Delivery)
      requires cache.Valid()
      modifies cache
      ensures cache.Valid()
      ensures mono ==> d.Local? && Step(cache.State(), d.reply) == Process(old(cache.State()), command, now)
      ensures !mono ==> d == Remote(server, command) && cache.State() == old(cache.State())
    {
      if mono {
        var res := ProcessOp(command, cache, now);
        return Local(res);
      }
      return Remote(server, command);
    }
  }
}
