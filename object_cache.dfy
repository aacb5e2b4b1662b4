/**
 * The cache engine as the class benchmark/ObjectCache.js writes it: a doubly linked list
 * of `Item`s between two sentinels, the most recently used item at `head.next` and the
 * least recently used one at `tail.prev`, indexed by key in a plain object (`map`).
 *
 * The ghost field `chain` lists the nodes from the tail sentinel to the head sentinel;
 * `order` and `items` are the ghost reading of the list and the index as a CacheSpec
 * `Engine` (`order[i]` is the key of `chain[i + 1]`). Each operation is proved to leave
 * the state the functional model prescribes: CacheSpec for the parts that agree with
 * benchmark/MapCache.js, ObjectCacheSpec for the parts written differently.
 */
module ObjectCacheEngine {
  import opened CacheSpec
  import opened ObjectCacheSpec
  import CacheProperties

  /** One list node; the sentinels are Items too, with no key (here ""). */
  class Item {
    var next: Item?
    var prev: Item?
    var key: Key
    var value: Value
    var lastUsed: int
    var expire: int

    constructor ()
      ensures next == null && prev == null && expire == NO_EXPIRY
      ensures key == "" && value == "" && lastUsed == 0
    {
      next, prev := null, null;
      expire := NO_EXPIRY;
      key, value, lastUsed := "", "", 0;
    }

    /** The node's contents as a value. */
    function AsEntry(): Entry
      reads this`key, this`value, this`lastUsed, this`expire
    {
      Entry(key, value, lastUsed, expire)
    }
  }

  /**
   * `index` sends the key at each position of `keys` to the node at the same position of
   * `nodes`, counting from the node after the tail sentinel.
   */
  ghost predicate Placed<T>(nodes: seq<T>, keys: seq<Key>, index: map<Key, T>)
  {
    && |nodes| == |keys| + 2
    && forall p :: 0 <= p < |keys| ==> keys[p] in index && index[keys[p]] == nodes[p + 1]
  }

  /** Unlinking the node at position `i` and deleting its key keeps the index in place. */
  lemma PlacedDrop<T>(nodes: seq<T>, keys: seq<Key>, index: map<Key, T>, i: int)
    requires Placed(nodes, keys, index) && Distinct(keys) && 0 <= i < |keys|
    ensures Placed(nodes[..i + 1] + nodes[i + 2..], keys[..i] + keys[i + 1..], index - {keys[i]})
  {
    var nodes', keys' := nodes[..i + 1] + nodes[i + 2..], keys[..i] + keys[i + 1..];
    forall p | 0 <= p < |keys'|
      ensures keys'[p] in index - {keys[i]} && (index - {keys[i]})[keys'[p]] == nodes'[p + 1]
    {
      if p < i {
        assert keys'[p] == keys[p] && nodes'[p + 1] == nodes[p + 1];
      } else {
        assert keys'[p] == keys[p + 1] && nodes'[p + 1] == nodes[p + 2];
      }
    }
  }

  /** Linking a node in before the head sentinel under a new key keeps the index in place. */
  lemma PlacedAppend<T>(nodes: seq<T>, keys: seq<Key>, index: map<Key, T>, key: Key, node: T)
    requires Placed(nodes, keys, index) && key !in keys
    ensures Placed(nodes[..|nodes| - 1] + [node, nodes[|nodes| - 1]], keys + [key], index[key := node])
  {
    var nodes', keys' := nodes[..|nodes| - 1] + [node, nodes[|nodes| - 1]], keys + [key];
    forall p | 0 <= p < |keys'|
      ensures keys'[p] in index[key := node] && index[key := node][keys'[p]] == nodes'[p + 1]
    {
      if p < |keys| {
        assert keys'[p] == keys[p] && nodes'[p + 1] == nodes[p + 1];
        assert keys[p] != key;
      }
    }
  }

  /** Unlinking the node at position `i` and deleting its key keeps list, index and items aligned. */
  lemma DropFacts(nodes: seq<Item>, keys: seq<Key>, index: map<Key, Item>, items: map<Key, Entry>, i: int)
    requires Placed(nodes, keys, index) && WellIndexed(keys, items) && 0 <= i < |keys|
    ensures Placed(nodes[..i + 1] + nodes[i + 2..], keys[..i] + keys[i + 1..], index - {keys[i]})
    ensures WellIndexed(keys[..i] + keys[i + 1..], items - {keys[i]})
  {
    PlacedDrop(nodes, keys, index, i);
    CacheProperties.DropAt(Engine(0, keys, items, 0, 0), i);
  }

  /**
   * Moving the node at position `i` next to the head sentinel, stamped `now`, keeps list,
   * index and items aligned.
   */
  lemma MoveFacts(nodes: seq<Item>, keys: seq<Key>, index: map<Key, Item>, items: map<Key, Entry>, i: int, now: int)
    requires Placed(nodes, keys, index) && WellIndexed(keys, items) && 0 <= i < |keys|
    ensures var nodes', keys' := nodes[..i + 1] + nodes[i + 2..], keys[..i] + keys[i + 1..];
            && Placed(nodes'[..|nodes'| - 1] + [nodes[i + 1], nodes'[|nodes'| - 1]], keys' + [keys[i]], index)
            && WellIndexed(keys' + [keys[i]], items[keys[i] := items[keys[i]].(lastUsed := now)])
  {
    MovePlaced(nodes, keys, index, i);
    MoveIndexed(keys, items, i, now);
  }

  /** The list half of MoveFacts: the node unlinked at `i` and linked in by the head stays placed. */
  lemma MovePlaced<T>(nodes: seq<T>, keys: seq<Key>, index: map<Key, T>, i: int)
    requires Placed(nodes, keys, index) && Distinct(keys) && 0 <= i < |keys|
    ensures var nodes', keys' := nodes[..i + 1] + nodes[i + 2..], keys[..i] + keys[i + 1..];
            Placed(nodes'[..|nodes'| - 1] + [nodes[i + 1], nodes'[|nodes'| - 1]], keys' + [keys[i]], index)
  {
    var nodes', keys' := nodes[..i + 1] + nodes[i + 2..], keys[..i] + keys[i + 1..];
    PlacedDrop(nodes, keys, index, i);
    forall p | 0 <= p < |keys'|
      ensures keys'[p] != keys[i]
    {
      if p < i {
        assert keys'[p] == keys[p];
      } else {
        assert keys'[p] == keys[p + 1];
      }
    }
    PlacedAppend(nodes', keys', index - {keys[i]}, keys[i], nodes[i + 1]);
    assert (index - {keys[i]})[keys[i] := nodes[i + 1]] == index;
  }

  /** The items half of MoveFacts: the key moved to the end keeps its restamped entry. */
  lemma MoveIndexed(keys: seq<Key>, items: map<Key, Entry>, i: int, now: int)
    requires WellIndexed(keys, items) && 0 <= i < |keys|
    ensures WellIndexed(keys[..i] + keys[i + 1..] + [keys[i]], items[keys[i] := items[keys[i]].(lastUsed := now)])
  {
    var e := Engine(0, keys, items, 0, 0);
    CacheProperties.PushAt(e, i, items[keys[i]], now);
    CacheProperties.PushFacts(e, items[keys[i]], now);
  }

  /** Linking a node in before the head sentinel under a new key keeps list, index and items aligned. */
  lemma AppendFacts(nodes: seq<Item>, keys: seq<Key>, index: map<Key, Item>, items: map<Key, Entry>, node: Item, entry: Entry)
    requires Placed(nodes, keys, index) && WellIndexed(keys, items) && entry.key !in items
    ensures Placed(nodes[..|nodes| - 1] + [node, nodes[|nodes| - 1]], keys + [entry.key], index[entry.key := node])
    ensures WellIndexed(keys + [entry.key], items[entry.key := entry])
  {
    PlacedAppend(nodes, keys, index, entry.key, node);
    CacheProperties.MapSetFacts(Engine(0, keys, items, 0, 0), entry);
  }

  /** Replacing the entry under a listed key keeps the keys and items aligned. */
  lemma ReplaceFacts(keys: seq<Key>, items: map<Key, Entry>, entry: Entry)
    requires WellIndexed(keys, items) && entry.key in items
    ensures WellIndexed(keys, items[entry.key := entry])
  {
  }

  /** Moving an entry up front drops whatever was stored under its key before. */
  lemma PushOverwrites(e: Engine, entry: Entry, stale: Entry, now: int)
    ensures PushItemUpfront(e.(items := e.items[entry.key := stale]), entry, now) == PushItemUpfront(e, entry, now)
  {
    assert e.items[entry.key := stale] - {entry.key} == e.items - {entry.key};
  }

  /** One step of the repaired sweep, once `_checkExpiration` has run on the first key. */
  lemma WalkStep(e: Engine, keys: seq<Key>, now: int, target: real, count: nat, e': Engine, found: Option<Entry>)
    requires keys != [] && Step(e', found) == CacheSpec.CheckExpiration(e, Lookup(e, keys[0]), now)
    ensures var count' := if found.None? then count + 1 else count;
            SweepWalk(e, keys, now, target, count) ==
              if count' as real >= target then Step(e', count') else SweepWalk(e', keys[1..], now, target, count')
  {
  }

  /** `_checkExpiration` on an expired entry deletes it and counts it down. */
  lemma ExpiredStep(e: Engine, entry: Entry, now: int)
    requires Expired(entry, now)
    ensures CacheSpec.CheckExpiration(e, Some(entry), now) ==
            Step(MapDelete(e, entry.key).(expireSetItems := e.expireSetItems - 1), None)
  {
  }

  class ObjectCache {
    const capacity: int
    /** `this.map`: the index from key to node. */
    var index: map<Key, Item>
    const head: Item
    const tail: Item
    var expireSetItems: int
    var lastCheck: int

    /** The nodes from the tail sentinel to the head sentinel. */
    ghost var chain: seq<Item>
    /** The keys of the listed nodes, least recently used first. */
    ghost var order: seq<Key>
    /** The contents of the indexed nodes. */
    ghost var items: map<Key, Entry>
    ghost var Repr: set<Item>

    /** The whole state as a value of the functional model. */
    ghost function State(): Engine
      reads this`order, this`items, this`expireSetItems, this`lastCheck
    {
      Engine(capacity, order, items, expireSetItems, lastCheck)
    }

    /**
     * The list is well linked: each node's `prev` is the next node towards the head and
     * its `next` the next node towards the tail; the sentinels end it, and `order` holds
     * the keys of the nodes between them.
     */
    ghost predicate Linked()
      reads this`chain, this`order, this`Repr, Repr`prev, Repr`next, Repr`key, head`expire
    {
      && 2 <= |chain| && |chain| == |order| + 2
      && chain[0] == tail && chain[|chain| - 1] == head
      && (forall n :: n in chain ==> n in Repr)
      && (forall i, j :: 0 <= i < j < |chain| ==> chain[i] != chain[j])
      && tail.next == null && head.prev == null && head.expire == NO_EXPIRY
      && (forall i {:trigger chain[i].prev} :: 0 <= i < |chain| - 1 ==> chain[i].prev == chain[i + 1])
      && (forall i {:trigger chain[i].next} :: 0 < i < |chain| ==> chain[i].next == chain[i - 1])
      && (forall i :: 0 <= i < |order| ==> chain[i + 1].key == order[i])
    }

    /** Each indexed node holds what `items` records under its key. */
    ghost predicate Stored()
      reads this`index, this`items, this`Repr, Repr`key, Repr`value, Repr`lastUsed, Repr`expire
    {
      forall k :: k in index ==> index[k] in Repr && index[k].key == k && k in items && index[k].AsEntry() == items[k]
    }

    /** `Stored`, except possibly under `key`. */
    ghost predicate StoredBut(key: Key)
      reads this`index, this`items, this`Repr, Repr`key, Repr`value, Repr`lastUsed, Repr`expire
    {
      forall k :: k in index && k != key ==>
        index[k] in Repr && index[k].key == k && k in items && index[k].AsEntry() == items[k]
    }

    /** The list and the index hold the same nodes, and `items` is what they contain. */
    ghost predicate Valid()
      reads this`chain, this`order, this`index, this`items, this`Repr, Repr, head`expire
    {
      && Linked()
      && WellIndexed(order, items)
      && index.Keys == items.Keys
      && Placed(chain, order, index)
      && Stored()
    }

    constructor (capacity: int)
      ensures Valid() && State() == Empty(capacity)
      ensures fresh(Repr)
    {
      this.capacity := capacity;
      index := map[];
      var h := new Item();
      var t := new Item();
      head, tail := h, t;
      new;
      head.next := tail;
      tail.prev := head;
      expireSetItems := 0;
      lastCheck := 0;
      chain, order, items := [tail, head], [], map[];
      Repr := {head, tail};
    }

    /** Where the node indexed under `key` sits in the list, with its neighbours. */
    lemma Locate(key: Key) returns (i: int)
      requires Valid() && key in index
      ensures 0 <= i < |order| && order[i] == key && index[key] == chain[i + 1]
      ensures index[key].key == key && index[key] != head && index[key] != tail
      ensures index[key].AsEntry() == items[key]
      ensures index[key].prev == chain[i + 2] && index[key].next == chain[i]
    {
      assert key in order;
      i :| 0 <= i < |order| && order[i] == key;
    }

    /** The contents of a node, or None for null. */
    ghost function Contents(item: Item?): Option<Entry>
      reads item
    {
      if item == null then None else Some(item.AsEntry())
    }

    // -------------------------------------------------------------------------
    // The list primitives

    /** `_removeItem`: link the neighbours of `item` to each other. */
    method RemoveItem(item: Item, ghost j: int)
      requires Linked() && 0 < j < |chain| - 1 && chain[j] == item
      requires item.prev == chain[j + 1] && item.next == chain[j - 1]
      requires Stored()
      modifies this`chain, this`order, item.prev`next, item.next`prev
      ensures Linked() && Stored()
      ensures chain == old(chain[..j] + chain[j + 1..])
      ensures order == old(order[..j - 1] + order[j..])
    {
      ghost var c := chain;
      var prev := item.prev;
      var next := item.next;
      prev.next := next;
      next.prev := prev;
      chain := chain[..j] + chain[j + 1..];
      order := order[..j - 1] + order[j..];
      forall i | 0 <= i < |chain| - 1
        ensures chain[i].prev == chain[i + 1]
      {
        if i < j - 1 {
          assert chain[i] == c[i] && chain[i + 1] == c[i + 1];
          assert old(c[i].prev) == c[i + 1];
        } else if i >= j {
          assert chain[i] == c[i + 1] && chain[i + 1] == c[i + 2];
          assert old(c[i + 1].prev) == c[i + 2];
        }
      }
      forall i | 0 < i < |chain|
        ensures chain[i].next == chain[i - 1]
      {
        if i < j {
          assert chain[i] == c[i] && chain[i - 1] == c[i - 1];
          assert old(c[i].next) == c[i - 1];
        } else if i > j {
          assert chain[i] == c[i + 1] && chain[i - 1] == c[i];
          assert old(c[i + 1].next) == c[i];
        }
      }
    }

    /** `_addItem`: link `item` in right after the head sentinel, stamped `now`. */
    method AddItem(item: Item, now: int)
      requires Linked() && item !in chain
      requires head.next == chain[|chain| - 2]
      requires Stored()
      modifies this`chain, this`order, this`Repr, item`prev, item`next, item`lastUsed, head`next, head.next`prev
      ensures Linked() && StoredBut(item.key) && Repr == old(Repr) + {item}
      ensures chain == old(chain[..|chain| - 1]) + [item, head]
      ensures order == old(order) + [item.key]
      ensures item.AsEntry() == old(item.AsEntry()).(lastUsed := now)
    {
      ghost var c := chain;
      item.prev := head;
      item.next := head.next;
      head.next.prev := item;
      head.next := item;
      item.lastUsed := now;
      chain := chain[..|chain| - 1] + [item, head];
      order := order + [item.key];
      Repr := Repr + {item};
      forall k | k in index && k != item.key
        ensures index[k] in Repr && index[k].key == k && k in items && index[k].AsEntry() == items[k]
      {
        assert old(index[k].key) == k && old(index[k].AsEntry()) == items[k];
      }
      forall i | 0 <= i < |chain| - 1
        ensures chain[i].prev == chain[i + 1]
      {
        if i < |c| - 2 {
          assert chain[i] == c[i] && chain[i + 1] == c[i + 1] && c[i] != c[|c| - 2];
        }
      }
      forall i | 0 < i < |chain|
        ensures chain[i].next == chain[i - 1]
      {
        if i < |c| - 1 {
          assert chain[i] == c[i] && chain[i - 1] == c[i - 1] && c[i] != head;
        }
      }
    }

    // -------------------------------------------------------------------------
    // The index kept in step with the list

    /**
     * `_removeItem(item)` followed by `delete this.map[item.key]`, as `_checkExpiration`
     * and `remove` do it: the key leaves the list and the index.
     */
    method Unlink(item: Item, ghost i: int)
      requires Valid() && 0 <= i < |order| && order[i] in index && index[order[i]] == item
      modifies this`chain, this`order, this`index, this`items, item.prev`next, item.next`prev
      ensures Valid() && Repr == old(Repr)
      ensures order == old(order[..i] + order[i + 1..]) && items == old(items) - {old(order[i])}
      ensures chain == old(chain[..i + 1] + chain[i + 2..]) && index == old(index) - {old(order[i])}
    {
      assert item == chain[i + 1] && item.key == order[i];
      DropFacts(chain, order, index, items, i);
      RemoveItem(item, i + 1);
      Forget(item.key);
    }

    /** `delete this.map[key]` for the key of a node just unlinked. */
    method Forget(key: Key)
      requires Linked() && Stored() && index.Keys == items.Keys
      requires Placed(chain, order, index - {key}) && WellIndexed(order, items - {key})
      modifies this`index, this`items
      ensures Valid()
      ensures index == old(index) - {key} && items == old(items) - {key}
    {
      index := index - {key};
      items := items - {key};
    }

    /** `_pushItemUpfront`: move the node next to the head sentinel, stamped `now`. */
    method PushItemUpfront(item: Item, ghost i: int, now: int)
      requires Valid() && 0 <= i < |order| && order[i] in index && index[order[i]] == item
      modifies this`chain, this`order, this`items, this`Repr, item`prev, item`next, item`lastUsed
      modifies item.prev`next, item.next`prev, head`next, head.next`prev
      ensures Valid() && index == old(index) && Repr == old(Repr)
      ensures State() == CacheSpec.PushItemUpfront(old(State()), old(item.AsEntry()), now)
    {
      assert item.AsEntry() == items[order[i]];
      CacheProperties.PushAt(State(), i, item.AsEntry(), now);
      Promote(item, i, now);
    }

    /** The list and index work of `_pushItemUpfront`. */
    method Promote(item: Item, ghost i: int, now: int)
      requires Valid() && 0 <= i < |order| && order[i] in index && index[order[i]] == item
      modifies this`chain, this`order, this`items, this`Repr, item`prev, item`next, item`lastUsed
      modifies item.prev`next, item.next`prev, head`next, head.next`prev
      ensures Valid() && index == old(index) && Repr == old(Repr)
      ensures order == old(order[..i] + order[i + 1..]) + [old(order[i])]
      ensures items == old(items[order[i] := items[order[i]].(lastUsed := now)])
    {
      assert item == chain[i + 1] && item.key == order[i] && item.AsEntry() == items[item.key];
      ghost var k, entry := item.key, item.AsEntry();
      MoveFacts(chain, order, index, items, i, now);
      RemoveItem(item, i + 1);
      assert item.AsEntry() == entry && index == old(index) && items == old(items);
      AddItem(item, now);
      assert item.AsEntry() == entry.(lastUsed := now) && index == old(index) && items == old(items);
      Restamp(item);
      assert items == old(items)[k := entry.(lastUsed := now)];
    }

    /** `items` takes the indexed node's current contents. */
    method Restamp(item: Item)
      requires Linked() && StoredBut(item.key) && item in Repr && item.key in index && index[item.key] == item
      requires index.Keys == items.Keys && Placed(chain, order, index)
      requires WellIndexed(order, items[item.key := item.AsEntry()])
      modifies this`items
      ensures Valid()
      ensures items == old(items)[item.key := item.AsEntry()]
    {
      items := items[item.key := item.AsEntry()];
    }

    /** `this.map[item.key] = item` for a node just linked in under a new key. */
    method Enter(item: Item)
      requires Linked() && StoredBut(item.key) && item in Repr && item.key !in index
      requires index.Keys == items.Keys && Placed(chain, order, index[item.key := item])
      requires WellIndexed(order, items[item.key := item.AsEntry()])
      modifies this`index, this`items
      ensures Valid()
      ensures index == old(index)[item.key := item] && items == old(items)[item.key := item.AsEntry()]
    {
      index := index[item.key := item];
      items := items[item.key := item.AsEntry()];
      forall k | k in index
        ensures index[k] in Repr && index[k].key == k && k in items && index[k].AsEntry() == items[k]
      {
        if k != item.key {
          assert old(index[k]) == index[k] && old(items[k]) == items[k];
        }
      }
    }

    /** `_removeItem(item)` and `delete this.map[item.key]`: the functional model's MapDelete. */
    method Delete(item: Item, ghost i: int)
      requires Valid() && 0 <= i < |order| && order[i] in index && index[order[i]] == item
      modifies this`chain, this`order, this`index, this`items, item.prev`next, item.next`prev
      ensures Valid() && Repr == old(Repr)
      ensures State() == MapDelete(old(State()), old(order[i]))
      ensures chain == old(chain[..i + 1] + chain[i + 2..]) && order == old(order[..i] + order[i + 1..])
      ensures index == old(index) - {old(order[i])}
    {
      CacheProperties.DropAt(State(), i);
      Unlink(item, i);
    }

    /** `this.expireSetItems--`. */
    method CountDown()
      requires Valid()
      modifies this`expireSetItems
      ensures Valid() && State() == old(State()).(expireSetItems := old(expireSetItems) - 1)
    {
      expireSetItems := expireSetItems - 1;
    }

    /** The entry a retrieved node stands for: null is the thrown "Key ... not found". */
    ghost function Found(r: Item?, key: Key): Result<Entry>
      reads r
    {
      if r == null then Err(NotFound(key)) else Ok(r.AsEntry())
    }

    // -------------------------------------------------------------------------
    // The helpers of the engine

    /** `_checkExpiration`: an expired node leaves the list and the index; null stays null. */
    method CheckExpiration(item: Item?, ghost i: int, now: int) returns (r: Item?)
      requires Valid()
      requires item == null || item == head || (0 <= i < |order| && order[i] in index && index[order[i]] == item)
      modifies this`chain, this`order, this`index, this`items, this`expireSetItems, Repr`prev, Repr`next
      ensures Valid() && Repr == old(Repr)
      ensures r == null || r == item
      ensures r != null ==> chain == old(chain) && index == old(index) && State() == old(State())
      ensures item == head ==> r == head
      ensures r == null && item != null ==> chain == old(chain[..i + 1] + chain[i + 2..]) && order == old(order[..i] + order[i + 1..])
      ensures item != head ==> Step(State(), Contents(r)) == CacheSpec.CheckExpiration(old(State()), old(Contents(item)), now)
    {
      if item != null && item.expire >= 0 && item.expire < now {
        Expire(item, i, now);
        return null;
      }
      return item;
    }

    /** The expired branch of `_checkExpiration`: the node goes, and the counter goes down. */
    method Expire(item: Item, ghost i: int, now: int)
      requires Valid() && 0 <= i < |order| && order[i] in index && index[order[i]] == item
      requires item.expire >= 0 && item.expire < now
      modifies this`chain, this`order, this`index, this`items, this`expireSetItems, item.prev`next, item.next`prev
      ensures Valid() && Repr == old(Repr)
      ensures chain == old(chain[..i + 1] + chain[i + 2..]) && order == old(order[..i] + order[i + 1..])
      ensures Step(State(), None) == CacheSpec.CheckExpiration(old(State()), Some(old(item.AsEntry())), now)
    {
      assert item == chain[i + 1] && item.key == order[i];
      ghost var e, entry := State(), item.AsEntry();
      ExpiredStep(e, entry, now);
      // The counter and the list share no field, so counting down first ends in the same state.
      CountDown();
      assert MapDelete(State(), entry.key) == MapDelete(e, entry.key).(expireSetItems := e.expireSetItems - 1);
      Delete(item, i);
    }

    /** `_retrieve`: the node under `key`, unless it is missing or expired. */
    method Retrieve(key: Key, now: int) returns (r: Item?)
      requires Valid()
      modifies this`chain, this`order, this`index, this`items, this`expireSetItems, Repr`prev, Repr`next
      ensures Valid() && Repr == old(Repr)
      ensures r != null ==> key in index && index[key] == r && chain == old(chain) && index == old(index)
      ensures Step(State(), Found(r, key)) == CacheSpec.Retrieve(old(State()), key, now)
    {
      var item := if key in index then index[key] else null;
      ghost var i := 0;
      if item != null {
        i := Locate(key);
      }
      r := CheckExpiration(item, i, now);
    }

    /** `_setExpiration`: a positive TTL in seconds sets the expiry and counts the item. */
    method SetExpiration(expire: int, item: Item, now: int)
      modifies item`expire, this`expireSetItems
      ensures Step(State(), item.AsEntry()) == CacheSpec.SetExpiration(old(State()), expire, old(item.AsEntry()), now)
    {
      if expire > 0 {
        item.expire := now + expire * 1000;
        expireSetItems := expireSetItems + 1;
      }
    }

    /** `_checkExists`: true when `add` must throw "Key ... already exists". */
    method CheckExists(key: Key, now: int) returns (exists_: bool)
      requires Valid()
      modifies this`chain, this`order, this`index, this`items, this`expireSetItems, this`Repr
      modifies Repr`prev, Repr`next, Repr`lastUsed
      ensures Valid() && Repr == old(Repr)
      ensures Step(State(), exists_) == CacheSpec.CheckExists(old(State()), key, now)
    {
      if key !in index {
        return false;
      }
      var existing := Retrieve(key, now);
      if existing != null {
        ghost var i := Locate(key);
        PushItemUpfront(existing, i, now);
        return true;
      }
      return false;
    }

    /**
     * `_checkCapacity` as written: a plain object has no `size` property (and a node stored
     * under the key "size" compares false with a number too), so the least recently used
     * node is never evicted; only the scheduling of the sweep remains.
     */
    method CheckCapacity(now: int) returns (sweepScheduled: bool)
      ensures Step(State(), sweepScheduled) == CheckCapacityAsWritten(State(), now)
    {
      sweepScheduled := expireSetItems > 0 && lastCheck + EXPIRE_INTERVAL < now;
    }

    /**
     * `_checkCapacity` with the capacity test made on the number of keys and the evicted
     * key deleted from the index, as benchmark/MapCache.js does it.
     */
    method CheckCapacityCorrected(now: int) returns (sweepScheduled: bool)
      requires Valid()
      modifies this`chain, this`order, this`index, this`items, Repr`prev, Repr`next
      ensures Valid() && Repr == old(Repr)
      ensures Step(State(), sweepScheduled) == CacheSpec.CheckCapacity(old(State()), now)
    {
      CacheProperties.SizeCountsKeys(State());
      if |index| >= capacity && |index| > 0 {
        EvictLru();
      }
      sweepScheduled := expireSetItems > 0 && lastCheck + EXPIRE_INTERVAL < now;
    }

    /** The eviction `_checkCapacity` means: the least recently used node leaves list and index. */
    method EvictLru()
      requires Valid() && |order| > 0
      modifies this`chain, this`order, this`index, this`items, Repr`prev, Repr`next
      ensures Valid() && Repr == old(Repr)
      ensures State() == MapDelete(old(State()), old(order[0]))
    {
      var item := tail.prev;
      assert item == chain[1] && index[order[0]] == item;
      Delete(item, 0);
    }


    /** `_addItem(newItem)` and `this.map[key] = newItem` for a fresh node under a new key. */
    method Insert(node: Item, now: int)
      requires Valid() && node !in Repr && node.key !in index
      modifies this`chain, this`order, this`index, this`items, this`Repr
      modifies node`prev, node`next, node`lastUsed, head`next, head.next`prev
      ensures Valid() && Repr == old(Repr) + {node}
      ensures State() == MapSet(old(State()), old(node.AsEntry()).(lastUsed := now))
    {
      AppendFacts(chain, order, index, items, node, node.AsEntry().(lastUsed := now));
      AddItem(node, now);
      Enter(node);
    }

    /** `item.value = value` and `_setExpiration(expire, item)` on the node `set` retrieved. */
    method Rewrite(item: Item, value: Value, expire: int, now: int)
      requires Valid() && item.key in index && index[item.key] == item
      modifies item`value, item`expire, this`expireSetItems, this`items
      ensures Valid()
      ensures var x := CacheSpec.SetExpiration(old(State()), expire, old(item.AsEntry()).(value := value), now);
              State() == x.engine.(items := x.engine.items[item.key := x.result])
    {
      ghost var x := CacheSpec.SetExpiration(State(), expire, item.AsEntry().(value := value), now);
      ReplaceFacts(order, items, x.result);
      item.value := value;
      SetExpiration(expire, item, now);
      forall k | k in index && k != item.key
        ensures index[k] in Repr && index[k].key == k && k in items && index[k].AsEntry() == items[k]
      {
        assert old(index[k].key) == k && old(index[k].AsEntry()) == items[k];
      }
      Restamp(item);
    }

    /**
     * One turn of the repaired sweep's loop: read the predecessor of the node at place `p`,
     * run `_checkExpiration` on the node and count it if it went, and go on at the
     * predecessor, which ends the walk as null after the head sentinel. The walk that is
     * left from here is the walk that was left before.
     */
    method Visit(item: Item, ghost p: int, now: int, ghost target: real, count: nat)
      returns (next: Item?, count': nat, ghost p': int)
      requires Valid() && 1 <= p < |chain| && item == chain[p]
      modifies this`chain, this`order, this`index, this`items, this`expireSetItems, Repr`prev, Repr`next
      ensures Valid() && Repr == old(Repr)
      ensures 1 <= p' <= |chain| && (next == null <==> p' == |chain|) && (next != null ==> next == chain[p'])
      ensures |chain| - p' < |old(chain)| - p
      ensures count' as real >= target || next == null ==>
                Step(State(), count') == SweepWalk(old(State()), old(order[p - 1..]), now, target, count)
      ensures count' as real < target && next != null ==>
                SweepWalk(State(), order[p' - 1..], now, target, count') ==
                SweepWalk(old(State()), old(order[p - 1..]), now, target, count)
    {
      ghost var e, keys := State(), order[p - 1..];
      next := item.prev;
      assert p < |chain| - 1 ==> next == chain[p + 1];
      assert p == |chain| - 1 ==> next == null;
      if p < |chain| - 1 {
        assert index[order[p - 1]] == item && Lookup(e, keys[0]) == Contents(item);
      }
      var r := CheckExpiration(item, p - 1, now);
      count' := if r == null then count + 1 else count;
      p' := if r == null then p else p + 1;
      if keys != [] {
        WalkStep(e, keys, now, target, count, State(), Contents(r));
        assert keys[1..] == order[p' - 1..];
      }
    }

    /**
     * One turn of the written sweep's loop, up to the read of `item.prev`: the node at
     * place `p` is checked and counted if it went.
     */
    method Probe(item: Item, ghost p: int, now: int, ghost target: real, count: nat) returns (r: Item?, count': nat)
      requires Valid() && 1 <= p < |chain| && item == chain[p]
      modifies this`chain, this`order, this`index, this`items, this`expireSetItems, Repr`prev, Repr`next
      ensures Valid() && Repr == old(Repr)
      ensures r != null ==> chain == old(chain) && r == chain[p]
      ensures r != null && p < |chain| - 1 ==> r.prev == chain[p + 1]
      ensures r != null && p == |chain| - 1 ==> r.prev == null
      ensures SweepWalkAsWritten(old(State()), old(order[p - 1..]), now, target, count) ==
                if count' as real >= target then Step(State(), Finished(count'))
                else if r == null then Step(State(), Crashed)
                else if p == |chain| - 1 then Step(State(), Finished(count'))
                else SweepWalkAsWritten(State(), order[p..], now, target, count')
    {
      ghost var e, keys := State(), order[p - 1..];
      if p < |chain| - 1 {
        assert index[order[p - 1]] == item && Lookup(e, keys[0]) == Contents(item) && keys[1..] == order[p..];
      }
      r := CheckExpiration(item, p - 1, now);
      count' := if r == null then count + 1 else count;
    }

    /** `new Item()` with its value and key set; the links are still unset. */
    static method NewItem(key: Key, value: Value) returns (node: Item)
      ensures fresh(node) && node.AsEntry() == Entry(key, value, 0, NO_EXPIRY)
    {
      node := new Item();
      node.value := value;
      node.key := key;
    }

    /** `this.lastCheck = Date.now()`. */
    method Stamp(now: int)
      requires Valid()
      modifies this`lastCheck
      ensures Valid() && State() == old(State()).(lastCheck := now)
    {
      lastCheck := now;
    }

    /**
     * `_checkExpired` as written: stamp `lastCheck`, then walk `prev` links from the least
     * recently used node (WalkAsWritten).
     */
    method CheckExpired(now: int) returns (run: SweepRun)
      requires Valid()
      modifies this`chain, this`order, this`index, this`items, this`expireSetItems, this`lastCheck
      modifies Repr`prev, Repr`next
      ensures Valid() && Repr == old(Repr)
      ensures Step(State(), run) == SweepAsWritten(old(State()), now)
    {
      ghost var e := State();
      Stamp(now);
      var target := Min(capacity as real / 3.0, expireSetItems as real);
      assert target == SweepTarget(e) && State() == e.(lastCheck := now);
      run := WalkAsWritten(now, target);
    }

    /**
     * The loop of `_checkExpired` as written: an expired node is unlinked by
     * `_checkExpiration`, which returns null, and unless the target is met the next
     * `item.prev` throws a TypeError (`Crashed`).
     */
    method WalkAsWritten(now: int, target: real) returns (run: SweepRun)
      requires Valid()
      modifies this`chain, this`order, this`index, this`items, this`expireSetItems, Repr`prev, Repr`next
      ensures Valid() && Repr == old(Repr)
      ensures Step(State(), run) == SweepWalkAsWritten(old(State()), old(order), now, target, 0)
    {
      var item := tail.prev;
      var count: nat := 0;
      ghost var p := 1;
      while item != null
        invariant Valid() && Repr == old(Repr)
        invariant 1 <= p <= |chain| && (item == null <==> p == |chain|) && (item != null ==> item == chain[p])
        invariant item != null ==>
                    SweepWalkAsWritten(State(), order[p - 1..], now, target, count) ==
                    SweepWalkAsWritten(old(State()), old(order), now, target, 0)
        invariant item == null ==> Step(State(), Finished(count)) == SweepWalkAsWritten(old(State()), old(order), now, target, 0)
        decreases |chain| - p
      {
        var r;
        r, count := Probe(item, p, now, target, count);
        if count as real >= target {
          return Finished(count);
        }
        if r == null {
          return Crashed;
        }
        item := r.prev;
        p := p + 1;
      }
      run := Finished(count);
    }

    /**
     * `_checkExpired` with the walk's next node read before the current one is checked,
     * so that unlinking an expired node does not lose the way (Walk).
     */
    method CheckExpiredCorrected(now: int) returns (count: nat)
      requires Valid()
      modifies this`chain, this`order, this`index, this`items, this`expireSetItems, this`lastCheck
      modifies Repr`prev, Repr`next
      ensures Valid() && Repr == old(Repr)
      ensures Step(State(), count) == Sweep(old(State()), now)
    {
      ghost var e := State();
      Stamp(now);
      var target := Min(capacity as real / 3.0, expireSetItems as real);
      assert target == SweepTarget(e) && State() == e.(lastCheck := now);
      count := Walk(now, target);
    }

    /** The loop of the repaired `_checkExpired`, one Visit per turn. */
    method Walk(now: int, target: real) returns (count: nat)
      requires Valid()
      modifies this`chain, this`order, this`index, this`items, this`expireSetItems, Repr`prev, Repr`next
      ensures Valid() && Repr == old(Repr)
      ensures Step(State(), count) == SweepWalk(old(State()), old(order), now, target, 0)
    {
      var item := tail.prev;
      count := 0;
      ghost var p := 1;
      while item != null
        invariant Valid() && Repr == old(Repr)
        invariant 1 <= p <= |chain| && (item == null <==> p == |chain|) && (item != null ==> item == chain[p])
        invariant item != null ==>
                    SweepWalk(State(), order[p - 1..], now, target, count) == SweepWalk(old(State()), old(order), now, target, 0)
        invariant item == null ==> Step(State(), count) == SweepWalk(old(State()), old(order), now, target, 0)
        decreases |chain| - p
      {
        item, count, p := Visit(item, p, now, target, count);
        if count as real >= target {
          return;
        }
      }
    }

    // -------------------------------------------------------------------------
    // The public operations

    method Flush() returns (r: bool)
      requires Valid()
      modifies this`chain, this`order, this`index, this`items, this`expireSetItems, head`next, tail`prev
      ensures Valid() && Repr == old(Repr)
      ensures Step(State(), r) == CacheSpec.Flush(old(State()))
    {
      index := map[];
      head.next := tail;
      tail.prev := head;
      expireSetItems := 0;
      chain, order, items := [tail, head], [], map[];
      return true;
    }

    /** `size()` as written: `this.map.length`, the node under the key "length" if any. */
    method SizeAsWritten() returns (r: Item?)
      requires Valid()
      ensures Contents(r) == ObjectCacheSpec.SizeAsWritten(State())
    {
      r := if "length" in index then index["length"] else null;
    }

    /** `size()` as intended: the number of keys in the index. */
    method Size() returns (n: int)
      requires Valid()
      ensures n == CacheSpec.Size(State())
    {
      n := |index|;
      CacheProperties.SizeCountsKeys(State());
    }

    method Get(key: Key, now: int) returns (r: Result<Value>)
      requires Valid()
      modifies this`chain, this`order, this`index, this`items, this`expireSetItems, this`Repr
      modifies Repr`prev, Repr`next, Repr`lastUsed
      ensures Valid() && Repr == old(Repr)
      ensures Step(State(), r) == CacheSpec.Get(old(State()), key, now)
    {
      var item := Retrieve(key, now);
      if item == null {
        return Err(NotFound(key));
      }
      ghost var i := Locate(key);
      PushItemUpfront(item, i, now);
      return Ok(item.value);
    }

    method Stat(key: Key, now: int) returns (r: Result<CacheSpec.Stat>)
      requires Valid()
      modifies this`chain, this`order, this`index, this`items, this`expireSetItems, Repr`prev, Repr`next
      ensures Valid() && Repr == old(Repr)
      ensures Step(State(), r) == StatOf(old(State()), key, now)
      ensures r.Ok? ==> chain == old(chain) && index == old(index)
    {
      var item := Retrieve(key, now);
      if item == null {
        return Err(NotFound(key));
      }
      return Ok(CacheSpec.Stat(item.lastUsed, item.expire));
    }

    /**
     * `add` as written: the capacity check never evicts, so the cache grows past its
     * capacity; an existing live key is moved up front and refused.
     */
    method Add(key: Key, value: Value, expire: int, now: int) returns (r: Result<bool>, sweepScheduled: bool)
      requires Valid()
      modifies this`chain, this`order, this`index, this`items, this`expireSetItems, this`Repr
      modifies Repr`prev, Repr`next, Repr`lastUsed
      ensures Valid() && old(Repr) <= Repr && fresh(Repr - old(Repr))
      ensures Step(State(), Admission(r, sweepScheduled)) == AddAsWritten(old(State()), key, value, expire, now)
    {
      var exists_ := CheckExists(key, now);
      if exists_ {
        return Err(AlreadyExists(key)), false;
      }
      sweepScheduled := Admit(key, value, expire, now);
      r := Ok(true);
    }

    /** `new Item(key, value)` and `_setExpiration(expire, newItem)`: a fresh node, not linked yet. */
    method Prepare(key: Key, value: Value, expire: int, now: int) returns (node: Item)
      modifies this`expireSetItems
      ensures fresh(node)
      ensures var x := CacheSpec.SetExpiration(old(State()), expire, Entry(key, value, now, NO_EXPIRY), now);
              State() == x.engine && node.AsEntry().(lastUsed := now) == x.result
    {
      node := NewItem(key, value);
      SetExpiration(expire, node, now);
    }

    /** The part of `add` after `_checkExists`, as written. */
    method Admit(key: Key, value: Value, expire: int, now: int) returns (sweepScheduled: bool)
      requires Valid() && key !in index
      modifies this`chain, this`order, this`index, this`items, this`expireSetItems, this`Repr
      modifies Repr`prev, Repr`next
      ensures Valid() && old(Repr) <= Repr && fresh(Repr - old(Repr))
      ensures var x := CacheSpec.SetExpiration(old(State()), expire, Entry(key, value, now, NO_EXPIRY), now);
              var cap := CheckCapacityAsWritten(x.engine, now);
              State() == MapSet(cap.engine, x.result) && sweepScheduled == cap.result
    {
      var newItem := Prepare(key, value, expire, now);
      sweepScheduled := CheckCapacity(now);
      Insert(newItem, now);
    }

    /** `add` with the repaired capacity check: the least recently used key makes room. */
    method AddCorrected(key: Key, value: Value, expire: int, now: int) returns (r: Result<bool>, sweepScheduled: bool)
      requires Valid()
      modifies this`chain, this`order, this`index, this`items, this`expireSetItems, this`Repr
      modifies Repr`prev, Repr`next, Repr`lastUsed
      ensures Valid() && old(Repr) <= Repr && fresh(Repr - old(Repr))
      ensures Step(State(), Admission(r, sweepScheduled)) == CacheSpec.Add(old(State()), key, value, expire, now)
    {
      var exists_ := CheckExists(key, now);
      if exists_ {
        return Err(AlreadyExists(key)), false;
      }
      sweepScheduled := AdmitCorrected(key, value, expire, now);
      r := Ok(true);
    }

    /** The part of `add` after `_checkExists`, with the repaired capacity check. */
    method AdmitCorrected(key: Key, value: Value, expire: int, now: int) returns (sweepScheduled: bool)
      requires Valid() && key !in index
      modifies this`chain, this`order, this`index, this`items, this`expireSetItems, this`Repr
      modifies Repr`prev, Repr`next
      ensures Valid() && old(Repr) <= Repr && fresh(Repr - old(Repr))
      ensures var x := CacheSpec.SetExpiration(old(State()), expire, Entry(key, value, now, NO_EXPIRY), now);
              var cap := CacheSpec.CheckCapacity(x.engine, now);
              State() == MapSet(cap.engine, x.result) && sweepScheduled == cap.result
    {
      var newItem := Prepare(key, value, expire, now);
      sweepScheduled := PlaceCorrected(newItem, now);
    }

    /** The repaired `_checkCapacity`, then `_addItem(newItem)` and `this.map[key] = newItem`. */
    method PlaceCorrected(node: Item, now: int) returns (sweepScheduled: bool)
      requires Valid() && node !in Repr && node.key !in index
      modifies this`chain, this`order, this`index, this`items, this`Repr
      modifies Repr`prev, Repr`next, node`prev, node`next, node`lastUsed
      ensures Valid() && Repr == old(Repr) + {node}
      ensures var cap := CacheSpec.CheckCapacity(old(State()), now);
              State() == MapSet(cap.engine, old(node.AsEntry()).(lastUsed := now)) && sweepScheduled == cap.result
    {
      sweepScheduled := CheckCapacityCorrected(now);
      Insert(node, now);
    }

    method Set(key: Key, value: Value, expire: int, now: int) returns (r: Result<bool>)
      requires Valid()
      modifies this`chain, this`order, this`index, this`items, this`expireSetItems, this`Repr
      modifies Repr`prev, Repr`next, Repr`lastUsed, Repr`value, Repr`expire
      ensures Valid() && Repr == old(Repr)
      ensures Step(State(), r) == CacheSpec.Set(old(State()), key, value, expire, now)
    {
      var item := Retrieve(key, now);
      if item == null {
        return Err(NotFound(key));
      }
      Overwrite(item, value, expire, now);
      return Ok(true);
    }

    /** The found branch of `set`: new value and expiry, then the node moves to the front. */
    method Overwrite(item: Item, value: Value, expire: int, now: int)
      requires Valid() && item.key in index && index[item.key] == item
      modifies this`chain, this`order, this`index, this`items, this`expireSetItems, this`Repr
      modifies Repr`prev, Repr`next, Repr`lastUsed, Repr`value, Repr`expire
      ensures Valid() && Repr == old(Repr)
      ensures var x := CacheSpec.SetExpiration(old(State()), expire, old(item.AsEntry()).(value := value), now);
              State() == CacheSpec.PushItemUpfront(x.engine, x.result, now)
    {
      ghost var x := CacheSpec.SetExpiration(State(), expire, item.AsEntry().(value := value), now);
      Rewrite(item, value, expire, now);
      PushOverwrites(x.engine, x.result, x.result, now);
      ghost var i := Locate(item.key);
      PushItemUpfront(item, i, now);
    }

    /** `remove`: the node leaves the list and the index; it returns nothing. */
    method Remove(key: Key, now: int) returns (r: Result<()>)
      requires Valid()
      modifies this`chain, this`order, this`index, this`items, this`expireSetItems, Repr`prev, Repr`next
      ensures Valid() && Repr == old(Repr)
      ensures var s := CacheSpec.Remove(old(State()), key, now);
              State() == s.engine && (r.Ok? <==> s.result.Ok?) && (r.Err? ==> r.error == s.result.error)
      ensures r.Ok? ==> index == old(index) - {key}
    {
      var item := Retrieve(key, now);
      if item == null {
        return Err(NotFound(key));
      }
      ghost var i := Locate(key);
      Delete(item, i);
      return Ok(());
    }
  }
}
