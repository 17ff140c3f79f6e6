/** tt_epoch_binary_cache (loader/epoch_loader.cpp): the recency cache decides in which slot
    of device memory a binary is placed. */
module BinarySlots {
  import opened Basics
  import opened Recency
  import opened RecencyCache

  /** What get_slot_for_binary makes of the cached items: the items afterwards, the slot, and
      whether it was a hit. On a miss with a full cache the slot is that of the evicted item,
      the last one or the one at the offset that was searched for; otherwise it is the next
      slot that has not been used. */
  function Fetch(s: seq<Item>, capacity: nat, useLru: bool, name: Key, offset: nat): (seq<Item>, int, bool)
    requires 1 <= capacity && |s| <= capacity && offset < capacity
  {
    var (found, slot) := Get(s, name);
    if slot >= 0 then (found, slot, true)
    else
      var free := if |found| < capacity then |found| else found[if useLru then |found| - 1 else offset].value;
      (if useLru then PutLru(found, capacity, name, free) else PutMruBt(found, capacity, name, free, offset), free, false)
  }

  /** One request: a binary is asked for, and on a miss its image is written to the slot. */
  datatype Request = Request(name: Key, offset: nat)

  /** The cached items and the names of the images in the slots. */
  datatype State = State(items: seq<Item>, memory: map<int, Key>)

  function Step(st: State, capacity: nat, useLru: bool, r: Request): State
    requires 1 <= capacity && |st.items| <= capacity && r.offset < capacity
  {
    var (items, slot, hit) := Fetch(st.items, capacity, useLru, r.name, r.offset);
    State(items, if hit then st.memory else st.memory[slot := r.name])
  }

  /** Every cached name's slot is one of the first ones and holds that name's image. */
  ghost predicate Sound(st: State, capacity: nat) {
    && |st.items| <= capacity && Distinct(Keys(st.items))
    && forall i :: 0 <= i < |st.items| ==>
         var it := st.items[i]; 0 <= it.value < |st.items| && it.value in st.memory && st.memory[it.value] == it.key
  }

  ghost predicate AllInRange(requests: seq<Request>, capacity: nat) {
    forall i :: 0 <= i < |requests| ==> requests[i].offset < capacity
  }

  lemma HitIsHas(st: State, capacity: nat, name: Key)
    requires Sound(st, capacity)
    ensures Get(st.items, name).1 >= 0 <==> Has(st.items, name)
    ensures !Has(st.items, name) ==> Get(st.items, name).0 == st.items
  {}

  /** A hit moves an item and changes no slot. */
  lemma SoundHit(st: State, capacity: nat, name: Key)
    requires Sound(st, capacity) && Has(st.items, name)
    ensures Sound(State(Get(st.items, name).0, st.memory), capacity)
  {
    var p := Position(Keys(st.items), name);
    ToFrontKeeps(st.items, name, st.items[p].value);
  }

  /** Taking out the item at place p, and placing the new name in its slot. */
  lemma SoundReplace(st: State, capacity: nat, name: Key, p: nat)
    requires Sound(st, capacity) && !Has(st.items, name) && p < |st.items|
    ensures Sound(State([Item(name, st.items[p].value)] + Drop(st.items, p), st.memory[st.items[p].value := name]), capacity)
  {
    var s := st.items;
    InsertKeeps(s, Drop(s, p), name, s[p].value);
    var r := [Item(name, s[p].value)] + Drop(s, p);
    forall i | 1 <= i < |r|
      ensures r[i].value != s[p].value
    {
      var k := if i - 1 < p then i - 1 else i;
      assert r[i] == s[k];
      assert Keys(s)[k] != Keys(s)[p];
    }
  }

  lemma SoundFresh(st: State, capacity: nat, name: Key)
    requires Sound(st, capacity) && !Has(st.items, name) && |st.items| < capacity
    ensures Sound(State([Item(name, |st.items|)] + st.items, st.memory[|st.items| := name]), capacity)
  {
    InsertKeeps(st.items, st.items, name, |st.items|);
  }

  lemma SoundStep(st: State, capacity: nat, useLru: bool, r: Request)
    requires 1 <= capacity && r.offset < capacity && Sound(st, capacity)
    ensures Sound(Step(st, capacity, useLru, r), capacity)
    ensures var (_, slot, hit) := Fetch(st.items, capacity, useLru, r.name, r.offset);
      && 0 <= slot < capacity
      && (hit ==> slot in st.memory && st.memory[slot] == r.name)
      && (hit <==> Has(st.items, r.name))
  {
    var s := st.items;
    HitIsHas(st, capacity, r.name);
    if Has(s, r.name) {
      SoundHit(st, capacity, r.name);
    } else if |s| < capacity {
      SoundFresh(st, capacity, r.name);
    } else {
      var p := if useLru then |s| - 1 else r.offset;
      LastDropped(s);
      SoundReplace(st, capacity, r.name, p);
    }
  }

  function AfterRequests(capacity: nat, useLru: bool, requests: seq<Request>): State
    requires 1 <= capacity
  {
    if requests == [] then State([], map[]) else
      var n := |requests| - 1;
      var before := AfterRequests(capacity, useLru, requests[..n]);
      if |before.items| <= capacity && requests[n].offset < capacity then Step(before, capacity, useLru, requests[n]) else before
  }

  /** However binaries are asked for and whichever offsets the search for a victim ends at: a
      hit names a slot that holds the image of that very binary, and no two cached binaries
      share a slot. */
  lemma {:induction false} HitsHoldTheBinary(capacity: nat, useLru: bool, requests: seq<Request>, next: Request)
    requires 1 <= capacity && AllInRange(requests, capacity) && next.offset < capacity
    ensures var st := AfterRequests(capacity, useLru, requests);
      && |st.items| <= capacity && Sound(st, capacity)
      && (forall i, j :: 0 <= i < j < |st.items| ==> st.items[i].value != st.items[j].value)
      && var (_, slot, hit) := Fetch(st.items, capacity, useLru, next.name, next.offset);
         0 <= slot < capacity && (hit ==> slot in st.memory && st.memory[slot] == next.name)
  {
    if requests != [] {
      var n := |requests| - 1;
      HitsHoldTheBinary(capacity, useLru, requests[..n], requests[n]);
      SoundStep(AfterRequests(capacity, useLru, requests[..n]), capacity, useLru, requests[n]);
    }
    var st := AfterRequests(capacity, useLru, requests);
    SoundStep(st, capacity, useLru, next);
    forall i, j | 0 <= i < j < |st.items|
      ensures st.items[i].value != st.items[j].value
    {
      assert Keys(st.items)[i] != Keys(st.items)[j];
    }
  }

  lemma SlotAt(cache: map<Key, Entry>, l: seq<Node>, place: nat)
    requires Linked(cache, l) && place < |l|
    ensures l[place].key in cache && cache[l[place].key].value == Items(cache, l)[place].value
  {}

  /** get_slot_for_binary, from the search for a victim on. */
  method GetSlotForBinary(cache: Cache, useLru: bool, name: Key, offset: nat, nextSlot: nat) returns (slot: int, hit: bool)
    requires cache.Valid() && offset < cache.capacity && nextSlot == |cache.list|
    modifies cache
    ensures cache.Valid() && cache.capacity == old(cache.capacity)
    ensures (cache.Contents(), slot, hit) == Fetch(old(cache.Contents()), cache.capacity, useLru, name, offset)
  {
    hide Linked, Items, Recency.Get, Recency.PutLru, Recency.PutMruBt, Has;
    slot := cache.Get(name);
    hit := slot >= 0;
    ghost var found := cache.Contents();
    if !hit {
      if |cache.list| == cache.capacity {
        var place := if useLru then |cache.list| - 1 else offset;
        SlotAt(cache.cache, cache.list, place);
        var victim := cache.list[place].key;
        slot := cache.cache[victim].value;
      } else {
        slot := nextSlot;
      }
      if useLru {
        cache.PutLru(name, slot);
      } else {
        cache.PutMruBt(name, slot, offset);
      }
    }
  }
}
