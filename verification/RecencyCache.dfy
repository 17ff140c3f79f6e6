/** tt_recency_cache (common/cache_lib.cpp): a map from keys to a value and a node of
    a linked list, the list in recency order, and a shortcut for the last entry. */
module RecencyCache {
  import opened Basics
  import opened Recency

  /** A list node. Its id stands for its address, which an iterator keeps. */
  datatype Node = Node(id: nat, key: Key)

  datatype Entry = Entry(value: int, node: nat)

  /** The key the shortcut holds before the first put: the code assigns -1 to a string. */
  const NO_KEY: Key := ['\U{00FF}']

  function NodeKeys(l: seq<Node>): (ks: seq<Key>)
    ensures |ks| == |l| && forall i :: 0 <= i < |l| ==> ks[i] == l[i].key
  {
    seq(|l|, i requires 0 <= i < |l| => l[i].key)
  }

  function NodeIds(l: seq<Node>): (ids: seq<nat>)
    ensures |ids| == |l| && forall i :: 0 <= i < |l| ==> ids[i] == l[i].id
  {
    seq(|l|, i requires 0 <= i < |l| => l[i].id)
  }

  /** list.erase(it): takes the node with the given address out of the list. */
  function Erase(l: seq<Node>, id: nat): seq<Node>
    requires id in NodeIds(l)
  {
    Drop(l, Position(NodeIds(l), id))
  }

  /** The map and the list describe the same entries: every node's key is mapped to
      that very node, and every mapped key has a node. */
  ghost predicate Linked(cache: map<Key, Entry>, l: seq<Node>) {
    && Distinct(NodeKeys(l)) && Distinct(NodeIds(l))
    && (forall i :: 0 <= i < |l| ==> l[i].key in cache && cache[l[i].key].node == l[i].id)
    && (forall k :: k in cache ==> k in NodeKeys(l))
  }

  ghost function Items(cache: map<Key, Entry>, l: seq<Node>): (s: seq<Item>)
    requires Linked(cache, l)
    ensures |s| == |l| && Keys(s) == NodeKeys(l)
    ensures forall i :: 0 <= i < |l| ==> s[i] == Item(l[i].key, cache[l[i].key].value)
  {
    seq(|l|, i requires 0 <= i < |l| => Item(l[i].key, cache[l[i].key].value))
  }

  /** Map and list have the same size. */
  lemma SameCount(cache: map<Key, Entry>, l: seq<Node>)
    requires Linked(cache, l)
    ensures |cache| == |l|
  {
    SetOfDistinct(NodeKeys(l));
    assert cache.Keys == SetOf(NodeKeys(l));
  }

  /** A mapped key's iterator points at the key's own position. */
  lemma NodeOf(cache: map<Key, Entry>, l: seq<Node>, key: Key)
    requires Linked(cache, l) && key in cache
    ensures cache[key].node in NodeIds(l)
    ensures Position(NodeIds(l), cache[key].node) == Position(NodeKeys(l), key)
  {
    var i := Position(NodeKeys(l), key);
    assert NodeIds(l)[i] == cache[key].node;
  }

  lemma DistinctDrop<T>(ks: seq<T>, p: nat)
    requires Distinct(ks) && p < |ks|
    ensures Distinct(Drop(ks, p)) && ks[p] !in Drop(ks, p)
    ensures forall k :: k in ks && k != ks[p] ==> k in Drop(ks, p)
  {
    forall k | k in ks && k != ks[p]
      ensures k in Drop(ks, p)
    {
      var i :| 0 <= i < |ks| && ks[i] == k;
      assert Drop(ks, p)[if i < p then i else i - 1] == k;
    }
  }

  lemma DistinctCons<T>(k: T, ks: seq<T>)
    requires Distinct(ks) && k !in ks
    ensures Distinct([k] + ks)
  {}

  /** Evicting the node at position p from list and map. */
  lemma EvictLinked(cache: map<Key, Entry>, l: seq<Node>, p: nat)
    requires Linked(cache, l) && p < |l|
    ensures Linked(cache - {l[p].key}, Drop(l, p))
    ensures Items(cache - {l[p].key}, Drop(l, p)) == Drop(Items(cache, l), p)
  {
    hide Drop;
    var rest, cache' := Drop(l, p), cache - {l[p].key};
    assert NodeKeys(rest) == Drop(NodeKeys(l), p);
    assert NodeIds(rest) == Drop(NodeIds(l), p);
    DistinctDrop(NodeKeys(l), p);
    DistinctDrop(NodeIds(l), p);
    forall i | 0 <= i < |rest|
      ensures rest[i].key in cache' && cache'[rest[i].key].node == rest[i].id
    {
      assert NodeKeys(rest)[i] in NodeKeys(rest);
      assert rest[i] == l[if i < p then i else i + 1];
    }
  }

  /** Inserting a key that is not mapped. */
  lemma InsertLinked(cache: map<Key, Entry>, l: seq<Node>, key: Key, id: nat, value: int)
    requires Linked(cache, l) && key !in cache && forall i :: 0 <= i < |l| ==> l[i].id < id
    ensures Linked(cache[key := Entry(value, id)], [Node(id, key)] + l)
    ensures Items(cache[key := Entry(value, id)], [Node(id, key)] + l) == [Item(key, value)] + Items(cache, l)
  {
    var l', cache' := [Node(id, key)] + l, cache[key := Entry(value, id)];
    assert NodeKeys(l') == [key] + NodeKeys(l);
    assert NodeIds(l') == [id] + NodeIds(l);
    assert forall i :: 0 <= i < |l| ==> NodeKeys(l)[i] in cache && NodeIds(l)[i] < id;
    DistinctCons(key, NodeKeys(l));
    DistinctCons(id, NodeIds(l));
    forall i | 0 <= i < |l'|
      ensures l'[i].key in cache' && cache'[l'[i].key].node == l'[i].id
    {
      if i > 0 { assert l'[i] == l[i - 1]; }
    }
  }

  /** Moving a key's node to the front, with a new address and possibly a new value,
      is evicting it and inserting it again. */
  lemma FrontLinked(cache: map<Key, Entry>, l: seq<Node>, key: Key, id: nat, value: int)
    requires Linked(cache, l) && key in cache && forall i :: 0 <= i < |l| ==> l[i].id < id
    ensures cache[key].node in NodeIds(l)
    ensures Linked(cache[key := Entry(value, id)], [Node(id, key)] + Erase(l, cache[key].node))
    ensures Items(cache[key := Entry(value, id)], [Node(id, key)] + Erase(l, cache[key].node))
            == ToFront(Items(cache, l), key, value)
  {
    NodeOf(cache, l, key);
    var p := Position(NodeKeys(l), key);
    EvictLinked(cache, l, p);
    hide Linked, Drop;
    Reinserted(cache, key, Entry(value, id));
    InsertLinked(cache - {key}, Drop(l, p), key, id, value);
  }

  /** What a put does to the keys in the list: the new one is in front, and the one at
      place p is gone, be it the same key or the one that makes room. */
  lemma KeysWithout(s: seq<Item>, p: nat, key: Key, value: int)
    requires p < |s|
    ensures Keys([Item(key, value)] + Drop(s, p)) == [key] + Keys(s)[..p] + Keys(s)[p + 1..]
  {}

  lemma KeysWithNew(s: seq<Item>, key: Key, value: int)
    ensures Keys([Item(key, value)] + s) == [key] + Keys(s)
  {}

  lemma PlaceOfKey(ks: seq<Key>, key: Key, p: nat)
    requires Distinct(ks) && p < |ks| && ks[p] == key
    ensures key in ks && p == Position(ks, key)
  {}

  lemma HasIsMapped(cache: map<Key, Entry>, l: seq<Node>, key: Key)
    requires Linked(cache, l)
    ensures Has(Items(cache, l), key) <==> key in cache
  {}

  lemma LastDropped(s: seq<Item>)
    requires |s| > 0
    ensures Drop(s, |s| - 1) == s[..|s| - 1]
  {}

  lemma FrontStored(s: seq<Item>, key: Key, held: int, value: int)
    requires Has(s, key)
    ensures |ToFront(s, key, held)| > 0
    ensures ToFront(s, key, held)[0 := Item(key, value)] == ToFront(s, key, value)
  {}

  /** A get of the front key changes nothing; the empty cache misses. */
  lemma ShortcutIsFront(s: seq<Item>, key: Key)
    requires s != [] ==> s[0].key == key
    ensures Recency.Get(s, key) == (s, if s == [] then MISS else s[0].value)
  {
    if s != [] {
      assert Keys(s)[0] == key;
      assert ToFront(s, key, s[0].value) == s;
    }
  }

  lemma GetOfItems(cache: map<Key, Entry>, l: seq<Node>, key: Key)
    requires Linked(cache, l)
    ensures Has(Items(cache, l), key) <==> key in cache
    ensures Recency.Get(Items(cache, l), key) ==
      if key in cache then (ToFront(Items(cache, l), key, cache[key].value), cache[key].value)
      else (Items(cache, l), MISS)
  {}

  lemma GetKeys(s: seq<Item>, key: Key)
    requires Has(s, key)
    ensures Keys(Recency.Get(s, key).0) == [key] + Keys(s)[..Position(Keys(s), key)] + Keys(s)[Position(Keys(s), key) + 1..]
  {
    KeysWithout(s, Position(Keys(s), key), key, Recency.Get(s, key).1);
  }

  lemma FrontItem(cache: map<Key, Entry>, l: seq<Node>)
    requires Linked(cache, l)
    ensures |Items(cache, l)| == |l|
    ensures l != [] ==> l[0].key in cache && Items(cache, l)[0] == Item(l[0].key, cache[l[0].key].value)
  {}

  lemma Reinserted(cache: map<Key, Entry>, key: Key, e: Entry)
    ensures (cache - {key})[key := e] == cache[key := e]
  {}

  /** Overwriting the value of the front entry. */
  lemma StoreLinked(cache: map<Key, Entry>, l: seq<Node>, key: Key, value: int)
    requires Linked(cache, l) && l != [] && l[0].key == key
    ensures Linked(cache[key := Entry(value, l[0].id)], l)
    ensures Items(cache[key := Entry(value, l[0].id)], l) == Items(cache, l)[0 := Item(key, value)]
  {
    assert forall i :: 0 < i < |l| ==> NodeKeys(l)[i] != NodeKeys(l)[0];
  }

  class Cache {
    var cache: map<Key, Entry>
    var list: seq<Node>
    var lastKey: Key
    var lastValue: int
    var capacity: nat
    var nextId: nat

    ghost predicate Consistent()
      reads this
    {
      && 1 <= capacity && |list| <= capacity
      && Linked(cache, list)
      && forall i :: 0 <= i < |list| ==> list[i].id < nextId
    }

    /** Consistent, and the shortcut holds the front of the list with its value. */
    ghost predicate Valid()
      reads this
    {
      && Consistent()
      && if list == [] then lastKey == NO_KEY && lastValue == MISS
         else lastKey == list[0].key && lastValue == cache[lastKey].value
    }

    /** The cached items in recency order. */
    ghost function Contents(): seq<Item>
      requires Consistent()
      reads this
    {
      Items(cache, list)
    }

    constructor (capacity: nat)
      requires 1 <= capacity
      ensures Valid() && Contents() == [] && this.capacity == capacity
    {
      this.capacity := capacity;
      cache, list, nextId := map[], [], 0;
      lastKey, lastValue := NO_KEY, MISS;
    }

    /** update_cache: moves a mapped key's node to the front. */
    method UpdateCache(key: Key)
      requires Consistent() && key in cache
      modifies this`list, this`cache, this`nextId
      ensures Consistent() && key in cache
      ensures cache.Keys == old(cache.Keys) && cache[key].value == old(cache[key].value)
      ensures |list| == old(|list|) > 0 && list[0].key == key
      ensures Contents() == ToFront(old(Contents()), key, cache[key].value)
    {
      FrontLinked(cache, list, key, nextId, cache[key].value);
      list := Erase(list, cache[key].node);
      list := [Node(nextId, key)] + list;
      cache := cache[key := cache[key].(node := nextId)];
      nextId := nextId + 1;
    }

    /** Erasing the entry of the node at position p, and the node. */
    method EvictAt(p: nat)
      requires Consistent() && p < |list|
      modifies this`list, this`cache
      ensures Consistent() && |list| < capacity
      ensures cache == old(cache - {list[p].key}) && old(list[p].key in cache)
      ensures Contents() == Drop(old(Contents()), p)
    {
      EvictLinked(cache, list, p);
      cache := cache - {list[p].key};
      list := Drop(list, p);
    }

    /** list.push_front(key): a node at a new address. */
    method PushFront(key: Key)
      modifies this`list, this`nextId
      ensures list == [Node(old(nextId), key)] + old(list) && nextId == old(nextId) + 1
    {
      list := [Node(nextId, key)] + list;
      nextId := nextId + 1;
    }

    /** Storing a key that is mapped already. */
    method StorePresent(key: Key, value: int)
      requires Consistent() && key in cache
      modifies this
      ensures Valid() && capacity == old(capacity) && Has(old(Contents()), key)
      ensures cache.Keys == old(cache.Keys) && cache[key].value == value
      ensures Contents() == ToFront(old(Contents()), key, value)
    {
      hide Linked, Items, ToFront;
      ghost var s, held := Contents(), cache[key].value;
      HasIsMapped(cache, list, key);
      UpdateCache(key);
      StoreLinked(cache, list, key, value);
      FrontStored(s, key, held, value);
      lastKey := key;
      lastValue := value;
      cache := cache[key := Entry(value, list[0].id)];
    }

    /** Storing a key that is not mapped, once there is room for it. */
    method StoreAbsent(key: Key, value: int)
      requires Consistent() && key !in cache && |list| < capacity
      modifies this
      ensures Valid() && capacity == old(capacity)
      ensures key in cache && cache == old(cache)[key := cache[key]] && cache[key].value == value
      ensures Contents() == [Item(key, value)] + old(Contents())
    {
      InsertLinked(cache, list, key, nextId, value);
      PushFront(key);
      lastKey := key;
      lastValue := value;
      cache := cache[key := Entry(value, list[0].id)];
    }

    method PutLru(key: Key, value: int)
      requires Valid()
      modifies this
      ensures Valid() && capacity == old(capacity)
      ensures Contents() == Recency.PutLru(old(Contents()), capacity, key, value)
      ensures key in cache && cache[key].value == value
      ensures key in old(cache) ==>
        var ks := old(NodeKeys(list)); var p := Position(ks, key);
        cache.Keys == old(cache.Keys) && NodeKeys(list) == [key] + ks[..p] + ks[p + 1..]
      ensures key !in old(cache) && old(|list|) < capacity ==>
        cache == old(cache)[key := cache[key]] && NodeKeys(list) == [key] + old(NodeKeys(list))
      ensures key !in old(cache) && old(|list|) == capacity ==>
        && cache == old(cache - {list[capacity - 1].key})[key := cache[key]]
        && NodeKeys(list) == [key] + old(NodeKeys(list))[..capacity - 1]
    {
      hide Linked, Items, Drop, Position;
      ghost var s := Contents();
      SameCount(cache, list);
      HasIsMapped(cache, list, key);
      if key in cache {
        KeysWithout(s, Position(Keys(s), key), key, value);
        StorePresent(key, value);
      } else {
        if |cache| == capacity {
          LastDropped(Contents());
          KeysWithout(s, |s| - 1, key, value);
          EvictAt(|list| - 1);
        } else {
          KeysWithNew(s, key, value);
        }
        StoreAbsent(key, value);
      }
    }

    method PutMruBt(key: Key, value: int, offset: nat)
      requires Valid()
      requires key !in cache && |list| == capacity ==> offset < |list|
      modifies this
      ensures Valid() && capacity == old(capacity)
      ensures !Has(old(Contents()), key) && |old(Contents())| == capacity ==> offset < |old(Contents())|
      ensures Contents() == Recency.PutMruBt(old(Contents()), capacity, key, value, offset)
      ensures key in cache && cache[key].value == value
      ensures key in old(cache) ==>
        var ks := old(NodeKeys(list)); var p := Position(ks, key);
        cache.Keys == old(cache.Keys) && NodeKeys(list) == [key] + ks[..p] + ks[p + 1..]
      ensures key !in old(cache) && old(|list|) < capacity ==>
        cache == old(cache)[key := cache[key]] && NodeKeys(list) == [key] + old(NodeKeys(list))
      ensures key !in old(cache) && old(|list|) == capacity ==>
        && cache == old(cache - {list[offset].key})[key := cache[key]]
        && old(list[offset].key) !in cache && |list| == capacity && NodeKeys(list)[0] == key
        && (forall i :: 0 <= i < offset ==> NodeKeys(list)[i + 1] == old(NodeKeys(list))[i])
        && (forall i :: offset < i < capacity ==> NodeKeys(list)[i] == old(NodeKeys(list))[i])
    {
      hide Linked, Items, Drop, Position;
      ghost var s := Contents();
      SameCount(cache, list);
      HasIsMapped(cache, list, key);
      if key in cache {
        KeysWithout(s, Position(Keys(s), key), key, value);
        StorePresent(key, value);
      } else {
        if |cache| == capacity {
          KeysWithout(s, offset, key, value);
          EvictAt(offset);
        } else {
          KeysWithNew(s, key, value);
        }
        StoreAbsent(key, value);
      }
    }

    /** get, with the shortcut for the last entry. The specification has no shortcut:
        it changes neither the answer nor the order in which keys are later evicted. */
    method Get(key: Key) returns (value: int)
      requires Valid()
      modifies this
      ensures Valid() && capacity == old(capacity)
      ensures (Contents(), value) == Recency.Get(old(Contents()), key)
      ensures cache.Keys == old(cache.Keys) && |list| == old(|list|)
      ensures key !in old(cache) ==> value == -1 && cache == old(cache) && list == old(list)
      ensures key in old(cache) ==>
        var ks := old(NodeKeys(list)); var p := Position(ks, key);
        value == old(cache[key].value) && NodeKeys(list) == [key] + ks[..p] + ks[p + 1..]
    {
      hide Linked, Items, ToFront, Recency.Get, Has, Position;
      GetOfItems(cache, list, key);
      if key in cache {
        GetKeys(Contents(), key);
      }
      FrontItem(cache, list);
      if key == lastKey {
        ShortcutIsFront(Contents(), key);
        return lastValue;
      }
      if key in cache {
        UpdateCache(key);
        lastKey := key;
        lastValue := cache[key].value;
        return lastValue;
      }
      return MISS;
    }
  }
}
