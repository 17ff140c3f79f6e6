/** The recency order that tt_recency_cache keeps, as a specification: a list of
    key/value items, most recently used first, and what the operations do to it. */
module Recency {
  import opened Basics

  type Key = string

  datatype Item = Item(key: Key, value: int)

  /** What get answers for a key that is not cached. */
  const MISS := -1

  function Keys(s: seq<Item>): (ks: seq<Key>)
    ensures |ks| == |s|
    ensures forall i :: 0 <= i < |s| ==> ks[i] == s[i].key
  {
    seq(|s|, i requires 0 <= i < |s| => s[i].key)
  }

  /** The first position of k in ks, or |ks|. */
  function Position<T(==)>(ks: seq<T>, k: T): (i: nat)
    ensures i <= |ks| && (i < |ks| <==> k in ks)
    ensures i < |ks| ==> ks[i] == k
    ensures forall j :: 0 <= j < i ==> ks[j] != k
  {
    if ks == [] || ks[0] == k then 0 else 1 + Position(ks[1..], k)
  }

  /** The sequence with position i taken out. */
  function Drop<T>(s: seq<T>, i: nat): (r: seq<T>)
    requires i < |s|
    ensures |r| == |s| - 1
    ensures forall j :: 0 <= j < |r| ==> r[j] == s[if j < i then j else j + 1]
  {
    s[..i] + s[i + 1..]
  }

  function Has(s: seq<Item>, k: Key): bool { k in Keys(s) }

  function ToFront(s: seq<Item>, k: Key, v: int): seq<Item>
    requires Has(s, k)
  {
    [Item(k, v)] + Drop(s, Position(Keys(s), k))
  }

  function Get(s: seq<Item>, k: Key): (seq<Item>, int) {
    if Has(s, k) then
      var v := s[Position(Keys(s), k)].value;
      (ToFront(s, k, v), v)
    else (s, MISS)
  }

  function PutLru(s: seq<Item>, capacity: nat, k: Key, v: int): seq<Item>
    requires 1 <= capacity
  {
    if Has(s, k) then ToFront(s, k, v)
    else if |s| == capacity then [Item(k, v)] + s[..|s| - 1]
    else [Item(k, v)] + s
  }

  /** The item at the given offset makes room, counted from the most recent. */
  function PutMruBt(s: seq<Item>, capacity: nat, k: Key, v: int, offset: nat): seq<Item>
    requires 1 <= capacity
    requires !Has(s, k) && |s| == capacity ==> offset < |s|
  {
    if Has(s, k) then ToFront(s, k, v)
    else if |s| == capacity then [Item(k, v)] + Drop(s, offset)
    else [Item(k, v)] + s
  }

  // ----- any mix of operations

  datatype Op = DoPutLru(k: Key, v: int) | DoPutMruBt(k: Key, v: int, offset: nat) | DoGet(k: Key)

  /** The state after a run from the empty cache, provided every offset that is used
      for an eviction lies within the list. */
  ghost predicate Reaches(capacity: nat, ops: seq<Op>, s: seq<Item>)
    requires 1 <= capacity
    decreases |ops|
  {
    if ops == [] then s == [] else
      var n := |ops| - 1;
      exists p :: Reaches(capacity, ops[..n], p) && OpStep(capacity, ops[n], p, s)
  }

  ghost predicate OpStep(capacity: nat, op: Op, p: seq<Item>, s: seq<Item>)
    requires 1 <= capacity
  {
    match op
    case DoPutLru(k, v) => s == PutLru(p, capacity, k, v)
    case DoPutMruBt(k, v, offset) =>
      (!Has(p, k) && |p| == capacity ==> offset < |p|) && s == PutMruBt(p, capacity, k, v, offset)
    case DoGet(k) => s == Get(p, k).0
  }

  /** The value a plain map, to which every put is applied, holds for k. */
  function PlainMap(ops: seq<Op>): map<Key, int> {
    if ops == [] then map[] else
      var n := |ops| - 1;
      match ops[n]
      case DoPutLru(k, v) => PlainMap(ops[..n])[k := v]
      case DoPutMruBt(k, v, _) => PlainMap(ops[..n])[k := v]
      case DoGet(_) => PlainMap(ops[..n])
  }

  ghost predicate Agrees(s: seq<Item>, m: map<Key, int>) {
    forall i :: 0 <= i < |s| ==> s[i].key in m && m[s[i].key] == s[i].value
  }

  lemma ToFrontKeeps(s: seq<Item>, k: Key, v: int)
    requires Has(s, k) && Distinct(Keys(s))
    ensures Distinct(Keys(ToFront(s, k, v))) && |ToFront(s, k, v)| == |s|
    ensures forall m :: Agrees(s, m) ==> Agrees(ToFront(s, k, v), m[k := v])
  {
    var p := Position(Keys(s), k);
    var r := ToFront(s, k, v);
    assert forall j :: 0 < j < |r| ==> r[j] == s[if j - 1 < p then j - 1 else j];
    assert forall j :: 0 < j < |r| ==> r[j].key != k;
  }

  /** Putting a new key in front, with or without some item taken out. */
  lemma InsertKeeps(s: seq<Item>, r: seq<Item>, k: Key, v: int)
    requires !Has(s, k) && Distinct(Keys(s))
    requires r == s || exists i: nat :: i < |s| && r == Drop(s, i)
    ensures Distinct(Keys([Item(k, v)] + r))
    ensures forall m :: Agrees(s, m) ==> Agrees([Item(k, v)] + r, m[k := v])
  {
    var ks := Keys([Item(k, v)] + r);
    forall j | 0 < j < |ks|
      ensures ks[j] != k
    {
      assert ks[j] == r[j - 1].key;
      assert exists i :: 0 <= i < |s| && s[i] == r[j - 1] && Keys(s)[i] == ks[j];
    }
  }

  lemma OpKeeps(capacity: nat, op: Op, p: seq<Item>, s: seq<Item>, m: map<Key, int>)
    requires 1 <= capacity && OpStep(capacity, op, p, s)
    requires Distinct(Keys(p)) && |p| <= capacity && Agrees(p, m)
    ensures Distinct(Keys(s)) && |s| <= capacity
    ensures Agrees(s, if op.DoGet? then m else m[op.k := op.v])
  {
    var k := op.k;
    if Has(p, k) {
      var at := Position(Keys(p), k);
      var v := if op.DoGet? then p[at].value else op.v;
      ToFrontKeeps(p, k, v);
      assert op.DoGet? ==> m[k := v] == m;
    } else if !op.DoGet? {
      if |p| == capacity {
        var i := if op.DoPutLru? then |p| - 1 else op.offset;
        assert p[..|p| - 1] == Drop(p, |p| - 1);
        InsertKeeps(p, Drop(p, i), k, op.v);
      } else {
        InsertKeeps(p, p, k, op.v);
      }
    }
  }

  /** A list that agrees with a map of the same size has all its keys. */
  lemma AllKeysHeld(s: seq<Item>, m: map<Key, int>)
    requires Distinct(Keys(s)) && Agrees(s, m) && |s| == |m|
    ensures forall k :: k in m ==> Has(s, k)
  {
    SetOfDistinct(Keys(s));
    forall k | k in Keys(s)
      ensures k in m.Keys
    {
      assert s[Position(Keys(s), k)].key == k;
    }
    SubsetSize(SetOf(Keys(s)), m.Keys);
    assert forall k :: k in m ==> k in m.Keys;
  }

  /** No room is left unused: the list stays as long as capacity and map allow. */
  lemma OpFills(capacity: nat, op: Op, p: seq<Item>, s: seq<Item>, m: map<Key, int>)
    requires 1 <= capacity && OpStep(capacity, op, p, s)
    requires Distinct(Keys(p)) && Agrees(p, m) && |p| == MinOf(|m|, capacity)
    ensures |s| == MinOf(if op.DoGet? then |m| else |m[op.k := op.v]|, capacity)
  {
    var k := op.k;
    if Has(p, k) {
      assert p[Position(Keys(p), k)].key == k;
    } else if |p| < capacity {
      AllKeysHeld(p, m);
    }
    if !op.DoGet? { PutSize(m, k, op.v); }
  }

  lemma PutSize(m: map<Key, int>, k: Key, v: int)
    ensures |m[k := v]| == if k in m then |m| else |m| + 1
  {
    assert m[k := v].Keys == m.Keys + {k};
    assert |m| == |m.Keys| && |m[k := v]| == |m[k := v].Keys|;
    if k in m { assert m.Keys + {k} == m.Keys; }
  }

  /** In every reachable state the list has no key twice, is as long as the capacity and
      the number of different keys put so far allow, and holds for each key the value of
      the last put: a get answers like the plain map or misses, and while no more than
      `capacity` different keys have been put it never misses one of them. */
  lemma {:induction false} AgreesWithPlainMap(capacity: nat, ops: seq<Op>, s: seq<Item>)
    requires 1 <= capacity && Reaches(capacity, ops, s)
    ensures Distinct(Keys(s)) && |s| == MinOf(|PlainMap(ops)|, capacity) && Agrees(s, PlainMap(ops))
    ensures forall k :: Has(s, k) ==> k in PlainMap(ops)
    ensures forall k :: Get(s, k).1 == if Has(s, k) then PlainMap(ops)[k] else MISS
    ensures |PlainMap(ops)| <= capacity ==> forall k :: k in PlainMap(ops) ==> Has(s, k)
    decreases |ops|
  {
    hide OpStep;
    if ops != [] {
      var n := |ops| - 1;
      var p: seq<Item> :| Reaches(capacity, ops[..n], p) && OpStep(capacity, ops[n], p, s);
      AgreesWithPlainMap(capacity, ops[..n], p);
      OpKeeps(capacity, ops[n], p, s, PlainMap(ops[..n]));
      OpFills(capacity, ops[n], p, s, PlainMap(ops[..n]));
    }
    AnswersAgree(s, PlainMap(ops));
    if |PlainMap(ops)| <= capacity {
      AllKeysHeld(s, PlainMap(ops));
    }
  }

  lemma AnswersAgree(s: seq<Item>, m: map<Key, int>)
    requires Agrees(s, m)
    ensures forall k :: Has(s, k) ==> k in m && Get(s, k).1 == m[k]
  {
    forall k | Has(s, k)
      ensures k in m && Get(s, k).1 == m[k]
    {
      assert s[Position(Keys(s), k)].key == k;
    }
  }
}
