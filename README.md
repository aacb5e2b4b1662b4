# Smitty cache: a Dafny model

Smitty is a namespaced in-memory key/value cache. A **cluster** routes REST requests
(`/v1/:namespace/:key`, `/v1/manage/:namespace/info|flush`) to the **node** registered
under the namespace. The node runs each request's command on its **cache engine**, an
LRU cache of bounded capacity with optional per-entry TTLs. Expired entries are removed
lazily when they are read. An active sweep also removes them; the capacity check
schedules it at most once per `EXPIRE_INTERVAL`.

The model has the following parts:

- `cache_spec.dfy` (module `CacheSpec`) is the functional model of the engine of
  `benchmark/MapCache.js`. An `Engine` value is the whole state of the cache:
  - the capacity;
  - the recency order of the keys (the insertion order of the JavaScript `Map`; index 0
    is the least recently used key);
  - the entries;
  - the counter `expireSetItems`;
  - `lastCheck`.

  Each JavaScript helper is one function returning the new engine and its result.
- `cache_properties.dfy` (module `CacheProperties`) holds the lemmas about that model:
  - the invariant every operation keeps;
  - the exact effect of each operation;
  - LRU eviction over a run of insertions;
  - what the active sweep deletes and where it stops.
- `cache_scenarios.dfy` (module `CacheScenarios`) states the scenarios of `test/cache.js`
  on the model.
- `map_cache.dfy` (class `MapCacheEngine.MapCache`) is the imperative engine. It keeps
  a `seq` of keys and a `map` of entries, which its methods reassign. Each method is
  proved to produce the state and result of the matching `CacheSpec` function.
- `object_cache_spec.dfy` (module `ObjectCacheSpec`) is the functional model of
  `benchmark/ObjectCache.js` as written. It states how that engine departs from the
  `Map` engine.
- `object_cache.dfy` (classes `ObjectCacheEngine.Item` and `ObjectCacheEngine.ObjectCache`)
  is the linked-list engine: a doubly linked list between two sentinel nodes, plus an
  index object. Its ghost `chain`/`order`/`items`/`Repr` tie the heap to an `Engine`
  value, so both engines are proved against one specification. Each defect of the file
  is modelled as written, beside its repair.
- `node.dfy` (module `CacheNode`) models `src/Node.js`:
  - `processOp` as the function `Process` and the method `ProcessOp`;
  - the server URL with its defaults;
  - the class `Node`, whose mono-mode `sendCommand` runs `processOp` on its own cache.
- `cluster.dfy` (module `CacheCluster`) models `src/Cluster.js`:
  - the `cmd` builders and `send`;
  - the route table and `findNode`;
  - the class `Cluster` with `addNode` and a route handler.

Time is a parameter `now` (milliseconds), read once per operation. Keys, values and
error messages are strings. An absent `expire` or `value` is 0 or "". The engine treats
an absent `expire` exactly like 0: `expire && expire > 0`.

## Model

| member | source | states |
|---|---|---|
| CacheSpec.Empty | benchmark/MapCache.js:16-21 | a new cache is well formed and empty, and has the given capacity |
| CacheSpec.MapDelete | benchmark/MapCache.js:106 | `map.delete` keeps the engine well formed and the key is gone |
| CacheSpec.MapSet | benchmark/MapCache.js:53 | `map.set` stores the entry under its key and keeps the engine well formed |
| CacheSpec.CheckExpiration | benchmark/MapCache.js:104-111 | the entry comes back exactly when it is present and not expired, and then nothing changes; an expired entry is deleted from the items and the counter drops by one, capacity and lastCheck kept |
| CacheSpec.PushItemUpfront | benchmark/MapCache.js:129-133 | the key ends up last in the order, stored stamped `now`, every other entry kept, the set of keys unchanged apart from that key |
| CacheSpec.SetExpiration | benchmark/MapCache.js:97-102 | only the counter and the entry's expiry may change; a positive TTL gives an expiry after `now` and raises the counter by exactly one, any other TTL changes nothing |
| CacheSpec.CheckCapacity | benchmark/MapCache.js:113-126 | below capacity nothing changes; when full the first key of the order is deleted and nothing is added, while the counter and lastCheck stay as they were; the result is whether a sweep is due in the resulting state |
| CacheSpec.Retrieve | benchmark/MapCache.js:87-95 | succeeds exactly on a live key, with its entry and nothing changed; otherwise NotFound; an expired entry is deleted from items and order and the counter drops by one |
| CacheSpec.CheckExists | benchmark/MapCache.js:70-85 | true exactly on a live key, which is then promoted; otherwise the state is that of `_retrieve` and the key is absent |
| CacheSpec.Flush | benchmark/MapCache.js:23-27 | returns true; the cache is empty, the counter is 0, capacity and lastCheck are kept |
| CacheSpec.Get | benchmark/MapCache.js:33-37 | succeeds exactly on a live key with its value; the key moves to the most recently used end, stamped `now`; a failure is NotFound with `_retrieve`'s state |
| CacheSpec.StatOf | benchmark/MapCache.js:39-42 | on a live key reports its lastUsed and expire and changes nothing; otherwise NotFound |
| CacheSpec.Add | benchmark/MapCache.js:44-55 | succeeds exactly when the key is not live; a refusal is AlreadyExists, schedules nothing and promotes the key; a success stores the given value under the key; the engine stays well formed |
| CacheSpec.Set | benchmark/MapCache.js:57-63 | succeeds (returning true) exactly on a live key; otherwise NotFound with `_retrieve`'s state |
| CacheSpec.Remove | benchmark/MapCache.js:65-68 | succeeds exactly on a live key, deleting it; otherwise NotFound |
| CacheSpec.SweepWalk | benchmark/MapCache.js:139-152 | the loop only removes keys, never lowers the count it was given, and keeps capacity and lastCheck and a well-formed engine |
| CacheSpec.Sweep | benchmark/MapCache.js:135-154 | `_checkExpired` records `now` as lastCheck, keeps the capacity, only removes keys and keeps the engine well formed |
| CacheProperties.DropAt | benchmark/MapCache.js:106 | deleting the key at place i removes exactly that place from the order |
| CacheProperties.PushAt | benchmark/MapCache.js:129-133 | promoting the key at place i moves it from there to the end, stamped `now` |
| CacheProperties.SizeCountsKeys | benchmark/MapCache.js:29-31 | `size()` is the number of distinct stored keys |
| CacheProperties.MapDeleteFacts | benchmark/MapCache.js:106 | `map.delete` keeps the engine well formed, lowers the size by one exactly when the key was there, and drops the key's expiring entry |
| CacheProperties.MapSetFacts | benchmark/MapCache.js:53 | `map.set` of a new key appends it, adds one to the size and counts it among expiring entries when it carries an expiry |
| CacheProperties.PushFacts | benchmark/MapCache.js:129-133 | promotion keeps the keys and the size, moves the key to the end, restamps it and leaves the counter alone |
| CacheProperties.RetrieveFacts | benchmark/MapCache.js:104-111 | a lookup keeps the invariant and never grows the cache; an expired hit shrinks size and counter by exactly one |
| CacheProperties.GetPreservesInvariant | benchmark/MapCache.js:33-37 | `get` keeps the invariant (well formed, counter covers expiring entries) and the capacity bound |
| CacheProperties.StatPreservesInvariant | benchmark/MapCache.js:39-42 | `stat` keeps the invariant and the capacity bound |
| CacheProperties.SetPreservesInvariant | benchmark/MapCache.js:57-63 | `set` keeps the invariant and the capacity bound |
| CacheProperties.RemovePreservesInvariant | benchmark/MapCache.js:65-68 | `remove` keeps the invariant and the capacity bound |
| CacheProperties.FlushPreservesInvariant | benchmark/MapCache.js:23-27 | `flush` establishes the invariant with no expiring entries |
| CacheProperties.InsertFacts | benchmark/MapCache.js:47-53 | the insertion half of `add` keeps the engine well formed, grows it by at most one and stays within a capacity of at least one |
| CacheProperties.AddPreservesInvariant | benchmark/MapCache.js:44-55 | `add` keeps the invariant and, with a capacity of at least one, never takes the size above the capacity |
| CacheProperties.AddConflict | benchmark/MapCache.js:70-85 | `add` of a live key throws AlreadyExists, keeps its value, promotes it and schedules nothing |
| CacheProperties.AddInsert | benchmark/MapCache.js:44-55 | `add` of an absent or expired key returns true, stores the entry stamped `now` with its expiry, evicts the first key exactly when the cache is full, and reports whether a sweep was scheduled |
| CacheProperties.SetUpdates | benchmark/MapCache.js:57-63 | `set` on a live key writes the value, keeps the old expiry unless a positive TTL is given, promotes the key and counts a new TTL |
| CacheProperties.RemoveKeepsCounter | benchmark/MapCache.js:65-68 | a successful `remove` deletes exactly its key and leaves the counter unchanged |
| CacheProperties.CounterDrift | benchmark/MapCache.js:65-68 | after `add` with a TTL and `remove`, the cache is empty but the counter is still 1 |
| CacheProperties.AddThenGet | benchmark/MapCache.js:44-55 | a key added and read before its expiry reads back its value and is the most recently used |
| CacheProperties.AddPreservesValid | benchmark/MapCache.js:44-55 | `add` keeps the engine well formed |
| CacheProperties.AddNew | benchmark/MapCache.js:113-120 | below capacity an absent key is appended and nothing is evicted |
| CacheProperties.AddEvict | benchmark/MapCache.js:113-120 | at capacity the least recently used key is evicted and the new one appended |
| CacheProperties.AddAllStep | benchmark/MapCache.js:113-120 | one insertion into a bounded cache keeps it bounded and shifts the window by one |
| CacheProperties.AddAllOrder | benchmark/MapCache.js:44-55 | a run of insertions moves the key order as a bounded window does |
| CacheProperties.AddAllKeepsLast | benchmark/MapCache.js:113-120 | after inserting distinct keys, the cache holds exactly the last `capacity` of them, oldest first |
| CacheProperties.SweepWalkFrame | benchmark/MapCache.js:142-152 | the sweep loop deletes only expired keys it visits and leaves every other entry and its place alone |
| CacheProperties.SweepWalkCount | benchmark/MapCache.js:142-152 | the loop's count equals the drop in size, in counter and in expiring entries |
| CacheProperties.SweepWalkExhaustive | benchmark/MapCache.js:142-152 | a loop ending below its target has deleted every expired entry it visited |
| CacheProperties.SweepWalkInOrder | benchmark/MapCache.js:142-150 | when the loop has deleted the key at some place, it has deleted every expired key before it |
| CacheProperties.SweepFacts | benchmark/MapCache.js:135-154 | `_checkExpired` stamps lastCheck, keeps the invariant and the bound, deletes only expired entries, counts each deletion, and below target leaves no expired entry; of the expired entries, it deletes an earlier one in the order whenever it deletes a later one, so when it stops at its target the deleted entries are the least recently used expired ones |
| CacheProperties.SweepWalkBound | benchmark/MapCache.js:148-150 | the loop stops within one deletion of its target |
| CacheProperties.SweepStopsAtTarget | benchmark/MapCache.js:138-150 | the sweep never goes a whole deletion past min(capacity/3, counter) |
| CacheScenarios.AddThenRead | test/cache.js:11-22 | an empty cache throws on `get`; after `add` the size is 1 and `get` returns the value |
| CacheScenarios.ErrorMessages | test/cache.js:23-27 | the two error texts are "Key t1 already exists" and "Key t1 not found" |
| CacheScenarios.AddExistingFails | test/cache.js:23-27 | a second `add` of a key throws AlreadyExists |
| CacheScenarios.EvictsLeastRecentlyUsed | test/cache.js:55-63 | with capacity 2, adding three keys leaves size 2 with the first key evicted |
| CacheScenarios.GetPromotes | test/cache.js:64-73 | a `get` saves the key from the next eviction; the other key goes instead |
| CacheScenarios.ConflictPromotes | test/cache.js:74-85 | a refused `add` also saves the key from the next eviction |
| CacheScenarios.ExpiryOnRead | test/cache.js:86-95 | a TTL is counted; once it has passed, `get` throws and the counter returns to 0 |
| CacheScenarios.AddOverExpired | test/cache.js:96-104 | an expired key can be added again and read back |
| CacheScenarios.SweepScheduled | test/cache.js:105-111 | adding t3 after t2 has expired schedules a sweep |
| CacheScenarios.SweepBeforeEviction | test/cache.js:105-119 | the sweep deletes t2 and stops, so adding t4 evicts nothing and t1 survives |
| MapCacheEngine.MapCache.constructor | benchmark/MapCache.js:16-21 | the new cache is the empty engine of the given capacity |
| MapCacheEngine.MapCache.MapDelete | benchmark/MapCache.js:106 | the state becomes CacheSpec.MapDelete of the old state |
| MapCacheEngine.MapCache.MapSet | benchmark/MapCache.js:53 | the state becomes CacheSpec.MapSet of the old state |
| MapCacheEngine.MapCache.CheckExpiration | benchmark/MapCache.js:104-111 | state and result are those of CacheSpec.CheckExpiration |
| MapCacheEngine.MapCache.Retrieve | benchmark/MapCache.js:87-95 | state and result are those of CacheSpec.Retrieve |
| MapCacheEngine.MapCache.SetExpiration | benchmark/MapCache.js:97-102 | state and entry are those of CacheSpec.SetExpiration |
| MapCacheEngine.MapCache.PushItemUpfront | benchmark/MapCache.js:129-133 | the state becomes CacheSpec.PushItemUpfront of the old state |
| MapCacheEngine.MapCache.CheckExists | benchmark/MapCache.js:70-85 | state and result are those of CacheSpec.CheckExists |
| MapCacheEngine.MapCache.CheckCapacity | benchmark/MapCache.js:113-126 | evicts the first key when full; result is whether a sweep is due |
| MapCacheEngine.MapCache.Flush | benchmark/MapCache.js:23-27 | state and result are those of CacheSpec.Flush |
| MapCacheEngine.MapCache.Size | benchmark/MapCache.js:29-31 | returns the number of stored keys |
| MapCacheEngine.MapCache.Get | benchmark/MapCache.js:33-37 | state and result are those of CacheSpec.Get |
| MapCacheEngine.MapCache.Stat | benchmark/MapCache.js:39-42 | state and result are those of CacheSpec.StatOf |
| MapCacheEngine.MapCache.Add | benchmark/MapCache.js:44-55 | state, result and sweep flag are those of CacheSpec.Add |
| MapCacheEngine.MapCache.Set | benchmark/MapCache.js:57-63 | state and result are those of CacheSpec.Set |
| MapCacheEngine.MapCache.Remove | benchmark/MapCache.js:65-68 | state and result are those of CacheSpec.Remove |
| MapCacheEngine.MapCache.CheckExpired | benchmark/MapCache.js:135-154 | the loop over the keys ends in the state and count of CacheSpec.Sweep |
| MapCacheEngine.MapCache.Visit | benchmark/MapCache.js:143-150 | one turn of the loop: the rest of CacheSpec.SweepWalk from the next key equals it from this one, or its result once the target is met |
| MapCacheEngine.MapCache.Walk | benchmark/MapCache.js:139-152 | the loop over the given keys ends in the state and count of CacheSpec.SweepWalk |
| ObjectCacheSpec.SizeAsWrittenUndefined | benchmark/ObjectCache.js:37-39 | a cache holding one key answers `size()` with undefined instead of 1 |
| ObjectCacheSpec.SizeAsWrittenNeverCounts | benchmark/ObjectCache.js:37-39 | without a key "length", `size()` is undefined while the cache holds some number of keys |
| ObjectCacheSpec.SizeAsWritten | benchmark/ObjectCache.js:37-39 | `size()` as written yields something exactly when the key "length" is stored, and then it is that entry, not a number |
| ObjectCacheSpec.CheckCapacityAsWritten | benchmark/ObjectCache.js:123-137 | the written capacity check never changes the cache; its result is only whether a sweep is due |
| ObjectCacheSpec.AddAsWritten | benchmark/ObjectCache.js:52-63 | the written `add` keeps the engine well formed |
| ObjectCacheSpec.AddAsWrittenNew | benchmark/ObjectCache.js:123-137 | the written `add` of an absent key appends it whatever the capacity |
| ObjectCacheSpec.AddAsWrittenKeepsOthers | benchmark/ObjectCache.js:126 | the written `add` never removes another key |
| ObjectCacheSpec.AddAsWrittenBelowCapacity | benchmark/ObjectCache.js:126 | below capacity the written `add` and the engine's `add` coincide |
| ObjectCacheSpec.AddAsWrittenOverflows | benchmark/ObjectCache.js:126 | on a full cache the written `add` grows past the capacity; the engine's `add` keeps the size |
| ObjectCacheSpec.EvictAsWritten | benchmark/ObjectCache.js:128-130 | the written eviction shortens the list by one and leaves every stored entry in place |
| ObjectCacheSpec.EvictAsWrittenLeavesIndex | benchmark/ObjectCache.js:128-130 | the written eviction leaves the key in the index without a place in the list; deleting it from the index keeps the engine well formed |
| ObjectCacheSpec.SweepWalkAsWrittenCrash | benchmark/ObjectCache.js:165-175 | the written loop throws exactly when the target exceeds one and some visited entry has expired; otherwise it removes at most one |
| ObjectCacheSpec.SweepAsWrittenCrash | benchmark/ObjectCache.js:159-177 | the written `_checkExpired` throws exactly when its target exceeds one and an entry has expired |
| ObjectCacheSpec.SweepWalkAsWrittenDropsOne | benchmark/ObjectCache.js:165-175 | the written loop removes at most one entry |
| ObjectCacheSpec.SweepWalkAsWrittenAgrees | benchmark/ObjectCache.js:165-175 | when the written loop does not throw, it matches the engine's loop |
| ObjectCacheSpec.SweepAsWrittenAgrees | benchmark/ObjectCache.js:159-177 | when the written sweep does not throw, it is the engine's sweep |
| ObjectCacheSpec.SweepAsWrittenThrows | benchmark/ObjectCache.js:166-174 | two expired entries in a cache of capacity six: the written sweep throws, the engine's removes both |
| ObjectCacheSpec.SweepWalkAsWritten | benchmark/ObjectCache.js:163-175 | the written loop only removes keys, a normal end never lowers the count, and capacity, lastCheck and a well-formed engine are kept |
| ObjectCacheSpec.SweepAsWritten | benchmark/ObjectCache.js:159-177 | the written `_checkExpired` records `now` as lastCheck, keeps the capacity, only removes keys and keeps the engine well formed |
| ObjectCacheEngine.Item.constructor | benchmark/ObjectCache.js:5-12 | a new node is unlinked and has no expiry |
| ObjectCacheEngine.ObjectCache.constructor | benchmark/ObjectCache.js:18-27 | the sentinels are linked to each other and the state is the empty engine |
| ObjectCacheEngine.ObjectCache.RemoveItem | benchmark/ObjectCache.js:139-144 | the node's neighbours are linked to each other: it leaves the list, the rest keeps its order |
| ObjectCacheEngine.ObjectCache.AddItem | benchmark/ObjectCache.js:146-152 | the node is linked in next to the head sentinel, as most recently used, stamped `now` |
| ObjectCacheEngine.ObjectCache.Unlink | benchmark/ObjectCache.js:115-116 | unlinking and deleting from the index removes exactly that key from order, list and items |
| ObjectCacheEngine.ObjectCache.PushItemUpfront | benchmark/ObjectCache.js:154-157 | the state becomes CacheSpec.PushItemUpfront of the old state |
| ObjectCacheEngine.ObjectCache.Delete | benchmark/ObjectCache.js:75-76 | the state becomes CacheSpec.MapDelete of the old state |
| ObjectCacheEngine.ObjectCache.CheckExpiration | benchmark/ObjectCache.js:113-121 | state and returned node are those of CacheSpec.CheckExpiration; an unexpired node is returned unchanged |
| ObjectCacheEngine.ObjectCache.Expire | benchmark/ObjectCache.js:114-118 | an expired node leaves list and index and the counter drops by one |
| ObjectCacheEngine.ObjectCache.Retrieve | benchmark/ObjectCache.js:96-104 | state and result are those of CacheSpec.Retrieve |
| ObjectCacheEngine.ObjectCache.SetExpiration | benchmark/ObjectCache.js:106-111 | state and node are those of CacheSpec.SetExpiration |
| ObjectCacheEngine.ObjectCache.CheckExists | benchmark/ObjectCache.js:79-94 | state and result are those of CacheSpec.CheckExists |
| ObjectCacheEngine.ObjectCache.CheckCapacity | benchmark/ObjectCache.js:123-137 | as written: nothing is evicted, and the result is whether a sweep is due |
| ObjectCacheEngine.ObjectCache.CheckCapacityCorrected | benchmark/ObjectCache.js:123-137 | repaired: state and result are those of CacheSpec.CheckCapacity |
| ObjectCacheEngine.ObjectCache.EvictLru | benchmark/ObjectCache.js:128-130 | repaired eviction: the least recently used key leaves list and index |
| ObjectCacheEngine.ObjectCache.Insert | benchmark/ObjectCache.js:60-61 | the new node is linked in and indexed: CacheSpec.MapSet with the entry stamped `now` |
| ObjectCacheEngine.ObjectCache.Rewrite | benchmark/ObjectCache.js:66-68 | the node takes the new value and, for a positive TTL, the new expiry and a counted TTL |
| ObjectCacheEngine.ObjectCache.Stamp | benchmark/ObjectCache.js:160 | the sweep records `now` as the last check and changes nothing else |
| ObjectCacheEngine.ObjectCache.Probe | benchmark/ObjectCache.js:166-173 | one turn of the written loop: it ends at the target or at the head, throws on the null an expiry leaves, or continues with the rest of ObjectCacheSpec.SweepWalkAsWritten |
| ObjectCacheEngine.ObjectCache.WalkAsWritten | benchmark/ObjectCache.js:163-175 | the written loop from the least recently used node ends in the state and outcome of ObjectCacheSpec.SweepWalkAsWritten |
| ObjectCacheEngine.ObjectCache.Visit | benchmark/ObjectCache.js:163-175 | one turn of the repaired loop: the walk moves one node towards the head, and what is left of CacheSpec.SweepWalk from there equals it from the old position, or its result at the target or the head |
| ObjectCacheEngine.ObjectCache.Walk | benchmark/ObjectCache.js:163-175 | the repaired loop from the least recently used node ends in the state and count of CacheSpec.SweepWalk |
| ObjectCacheEngine.ObjectCache.CheckExpired | benchmark/ObjectCache.js:159-177 | as written: state and outcome (count, or the thrown TypeError) are those of ObjectCacheSpec.SweepAsWritten |
| ObjectCacheEngine.ObjectCache.CheckExpiredCorrected | benchmark/ObjectCache.js:159-177 | repaired: state and count are those of CacheSpec.Sweep |
| ObjectCacheEngine.ObjectCache.Flush | benchmark/ObjectCache.js:29-35 | state and result are those of CacheSpec.Flush |
| ObjectCacheEngine.ObjectCache.SizeAsWritten | benchmark/ObjectCache.js:37-39 | as written: returns the node under the key "length", if any |
| ObjectCacheEngine.ObjectCache.Size | benchmark/ObjectCache.js:37-39 | repaired: returns CacheSpec.Size of the state |
| ObjectCacheEngine.ObjectCache.Get | benchmark/ObjectCache.js:41-45 | state and result are those of CacheSpec.Get |
| ObjectCacheEngine.ObjectCache.Stat | benchmark/ObjectCache.js:47-50 | state and result are those of CacheSpec.StatOf; on success the list and the index are untouched |
| ObjectCacheEngine.ObjectCache.Add | benchmark/ObjectCache.js:52-63 | as written: state, result and sweep flag are those of ObjectCacheSpec.AddAsWritten |
| ObjectCacheEngine.ObjectCache.Prepare | benchmark/ObjectCache.js:55-58 | the new node is fresh and holds key, value and the expiry of CacheSpec.SetExpiration, whose counter the state takes |
| ObjectCacheEngine.ObjectCache.Admit | benchmark/ObjectCache.js:55-61 | the new node gets its TTL, the capacity check runs as written, and the node is inserted |
| ObjectCacheEngine.ObjectCache.AddCorrected | benchmark/ObjectCache.js:52-63 | repaired: state, result and sweep flag are those of CacheSpec.Add |
| ObjectCacheEngine.ObjectCache.AdmitCorrected | benchmark/ObjectCache.js:55-61 | as Admit, with the repaired capacity check |
| ObjectCacheEngine.ObjectCache.PlaceCorrected | benchmark/ObjectCache.js:59-61 | the repaired capacity check, then the node linked in and indexed: CacheSpec.MapSet after CacheSpec.CheckCapacity, with the sweep flag of the latter |
| ObjectCacheEngine.ObjectCache.Set | benchmark/ObjectCache.js:65-71 | state and result are those of CacheSpec.Set |
| ObjectCacheEngine.ObjectCache.Overwrite | benchmark/ObjectCache.js:66-69 | the found node takes the new value and TTL and moves to the front: CacheSpec.PushItemUpfront after CacheSpec.SetExpiration |
| ObjectCacheEngine.ObjectCache.Remove | benchmark/ObjectCache.js:73-77 | the state is that of CacheSpec.Remove; the method fails exactly when the model does, with the same error; on success the index loses exactly the key |
| CacheNode.Process | src/Node.js:13-62 | `processOp` keeps the cache well formed |
| CacheNode.ProcessCodes | src/Node.js:13-62 | a reply has a code exactly when the cache threw: 400 for `add` (AlreadyExists), 404 for the keyed ops (NotFound); `flush` and `info` never fail; exactly the unsupported ops give Unsupported |
| CacheNode.ProcessUnsupported | src/Node.js:59-60 | an unsupported op leaves the cache alone and answers "Operation X not supported" with no code |
| CacheNode.ProcessGet | src/Node.js:29-36 | `get` answers key, value, lastUsed `now` and expire exactly for a live key; otherwise 404 |
| CacheNode.ProcessSet | src/Node.js:44-51 | `set` answers key, value and the new stat exactly for a live key; otherwise 404 |
| CacheNode.ProcessAdd | src/Node.js:37-43 | `add` answers created: true exactly when the key was not live; on a live key it answers 400 |
| CacheNode.ProcessRemove | src/Node.js:52-58 | `remove` answers removed: true exactly for a live key and then deletes exactly that key; otherwise it answers 404 "Key ... not found"; either way the key is absent afterwards |
| CacheNode.ProcessManage | src/Node.js:15-28 | `flush` answers done: true and empties the cache; `info` answers size, capacity and the counter and changes nothing |
| CacheNode.ProcessOp | src/Node.js:13-62 | reply and cache state are those of Process |
| CacheNode.ServerUrl | src/Node.js:75 | the server URL begins with the configured host, or with http://localhost when none is given, and ends with "/v1/" |
| CacheNode.ServerUrlDefault | src/Node.js:7-8 | with neither host nor port the server is http://localhost:12345/v1/ |
| CacheNode.Node.constructor | src/Node.js:73-79 | name, server URL, maxSize and mode come from the config; the cache is a fresh empty engine of capacity maxSize |
| CacheNode.Node.SendCommand | src/Node.js:81-92 | in mono mode the reply is `processOp` on the node's own cache; otherwise the command goes to the server URL and the cache is untouched |
| CacheCluster.CmdCarries | src/Cluster.js:16-21 | each builder tags the command with its own op, which the node supports, and carries the parameters unchanged |
| CacheCluster.SendReply | src/Cluster.js:8-14 | a node's reply goes out with its code and error text exactly when the cache threw (400/404); anything else, an unsupported op included, is a 200 with the reply |
| CacheCluster.RouteRows | src/Cluster.js:31-71 | each op has its route: the request built for a command routes back to it, keeping what the route carries |
| CacheCluster.RouteSupported | src/Cluster.js:31-71 | every routed request is one of the six rows: its op is supported, the key comes from the path, and only `add` and `set` take the body |
| CacheCluster.FindNode | src/Cluster.js:23-29 | finds the node exactly when the namespace is registered; otherwise the message is "Node not found: " and the namespace |
| CacheCluster.Cluster.constructor | src/Cluster.js:75-77 | the registry starts empty |
| CacheCluster.Cluster.AddNode | src/Cluster.js:86-89 | the node is registered under its name, replacing any node of that name; other registrations stay; all nodes stay registered under their own names |
| CacheCluster.Cluster.Handle | src/Cluster.js:33-69 | unrouted requests and unknown namespaces fail; otherwise a mono node runs the command on its cache and its reply goes through `send`, and a remote node gets the command |
| CacheCluster.RegisterTwice | src/Cluster.js:86-89 | two nodes with one name leave only the later one registered |

## Left out

- I/O and the frameworks: the HTTP layer (Express, `createApp`, the body parser, and how
  Express matches paths) and the node's own `POST /v1/` route.
  - Route segments are given already split. A parameter segment matches any non-empty
    string.
  - Case-insensitive matching, trailing slashes and percent-decoding are not modelled.
- The remote branch of `sendCommand` (axios) is left out. The model records only the URL
  and the command; the remote reply is not modelled.
  - The reply that `Handle` forwards is not passed to `send`.
- `src/utils.js`, `client.js`, `server.js`, `nodes.js` and `benchmark/testCache.js` are
  not part of this model.
- `src/Cache.js` is not part of this model. The node's cache is the `Map` engine of
  `benchmark/MapCache.js`, and the scenarios of `test/cache.js` are stated on that
  engine.
- Debug logging is left out.
- `setImmediate` is left out. The capacity check only reports that a sweep is scheduled
  (`sweepScheduled`); the sweep is a separate operation (`Sweep`,
  `MapCache.CheckExpired`), run whenever the caller chooses.
- `Date.now()` is the parameter `now`, one reading per operation; the JavaScript reads
  the clock several times within one call.
- CacheCluster.Cluster.Handle: what Express does with the string `findNode` throws (an
  error page) is not modelled. The outcome is `Thrown(message)`.
- CacheCluster.Cluster.Handle does not state that the caches of nodes other than the
  addressed one are unchanged.
- Keys equal to names on `Object.prototype` are not modelled. In the JavaScript, such a
  key (e.g. "constructor") would make `findNode` and the ObjectCache index find an
  inherited property.
- The ObjectCache index is modelled as a map. An index property named "length" or
  "size" only matters to the two defects below, and the model keeps it for `size()`.
- JavaScript values are modelled as strings and integers.
  - Values are strings, and `expire` is an integer number of seconds.
  - Absent fields of a command are "" and 0.
  - A non-numeric or fractional `expire` is not modelled.
  - Spreading `params` over `op` (a body field named `op`) is not modelled, since a route
    never passes one.
- The sweep target `Math.min(capacity / 3, expireSetItems)` is computed on reals, so no
  floating point is modelled.
- CacheNode.ProcessCodes: the 500 branches of `flush` and `info` cannot be taken with
  the `Map` engine, which never throws there, so the model has none.
- ObjectCacheEngine.ObjectCache.Remove returns `Result<()>`: the JavaScript `remove`
  returns `undefined` and signals failure by throwing.
- `expireSetItems` is not the number of entries with an expiry, though its name suggests
  it. The code only ever keeps it at least that number (`CacheProperties.CounterCovers`).
  - `remove`, eviction and a TTL set on an entry that already had one all leave it
    higher (`CacheProperties.CounterDrift`).
- `size() <= capacity` holds after every operation only for a capacity of at least one
  (`CacheProperties.AddPreservesInvariant`). A cache of capacity 0 keeps one entry,
  because the eviction needs a key to evict.

## Findings

| source | as written | input that shows it | evidently intended | confidence | as-written member | corrected member |
|---|---|---|---|---|---|---|
| benchmark/ObjectCache.js:37-39 | `size()` returns `this.map.length`, a property a plain object does not have | a cache holding only the key "a": `size()` is undefined, not 1 | the number of stored keys | high, not executed | ObjectCacheSpec.SizeAsWrittenUndefined | ObjectCacheEngine.ObjectCache.Size |
| benchmark/ObjectCache.js:126 | the capacity test reads `this.map.size`, undefined on a plain object, so `undefined >= capacity` is false and nothing is ever evicted | capacity 1 holding "a"; `add("b")` leaves two keys | evict the least recently used key when the number of keys reaches the capacity | high, not executed | ObjectCacheSpec.AddAsWrittenOverflows | ObjectCacheEngine.ObjectCache.AddCorrected |
| benchmark/ObjectCache.js:129 | the eviction runs `delete this[item.key]`, a property of the cache object, not of the index | with the test at line 126 repaired, evicting "a" unlinks it but leaves it in the index | `delete this.map[item.key]` | high, not executed | ObjectCacheSpec.EvictAsWrittenLeavesIndex | ObjectCacheEngine.ObjectCache.EvictLru |
| benchmark/ObjectCache.js:166-174 | `_checkExpiration` returns null for an expired node, and the loop then reads `item.prev` of null | capacity 6, two expired entries: the sweep throws a TypeError after the first removal | read the predecessor before checking the node and go on | high, not executed | ObjectCacheSpec.SweepAsWrittenThrows | ObjectCacheEngine.ObjectCache.CheckExpiredCorrected |
