/** The stack property of the LRU policy: what the cache holds after any sequence of
    accesses, each a get followed by a put_lru if the get missed. */
module LruStack {
  import opened Basics
  import opened Recency

  /** One access of the loader: look the key up, and store it on a miss. */
  function Access(capacity: nat, s: seq<Item>, k: Key, v: int): seq<Item>
    requires 1 <= capacity
  {
    var (s1, r) := Get(s, k);
    if r == MISS then PutLru(s1, capacity, k, v) else s1
  }

  /** The state after the accesses of h, each with the value its key would get. */
  function AfterAccesses(capacity: nat, h: seq<Item>): seq<Item>
    requires 1 <= capacity
  {
    if h == [] then [] else
      var n := |h| - 1;
      Access(capacity, AfterAccesses(capacity, h[..n]), h[n].key, h[n].value)
  }

  /** The distinct keys of a history, most recently accessed first. */
  function RecentKeys(h: seq<Key>): (d: seq<Key>)
    ensures forall k :: k in d <==> k in h
    ensures Distinct(d)
  {
    if h == [] then [] else
      var n := |h| - 1;
      var d := RecentKeys(h[..n]);
      assert forall k :: k in h <==> k in h[..n] || k == h[n];
      if h[n] in d then
        var p := Position(d, h[n]);
        MoveKeeps(d, p);
        [h[n]] + Drop(d, p)
      else [h[n]] + d
  }

  lemma MoveKeeps(d: seq<Key>, p: nat)
    requires Distinct(d) && p < |d|
    ensures Distinct([d[p]] + Drop(d, p))
    ensures forall k :: k in [d[p]] + Drop(d, p) <==> k in d
  {
    var r := [d[p]] + Drop(d, p);
    forall i, j | 0 <= i < j < |r|
      ensures r[i] != r[j]
    {
      assert r[j] == d[if j - 1 < p then j - 1 else j];
    }
    forall k | k in d
      ensures k in r
    {
      var i := Position(d, k);
      assert d[i] == r[if i == p then 0 else if i < p then i + 1 else i];
    }
    forall k | k in r
      ensures k in d
    {
      var i := Position(r, k);
      assert r[i] == d[if i == 0 then p else if i - 1 < p then i - 1 else i];
    }
  }

  function Take<T>(s: seq<T>, n: nat): seq<T> { if n < |s| then s[..n] else s }

  lemma FrontKeys(s: seq<Item>, k: Key, v: int)
    requires Has(s, k)
    ensures Keys(ToFront(s, k, v)) == [k] + Drop(Keys(s), Position(Keys(s), k))
  {}

  /** An access moves its key to the front, evicting the last one if it was absent
      and the cache is full. */
  lemma AccessKeys(capacity: nat, s: seq<Item>, k: Key, v: int)
    requires 1 <= capacity && |s| <= capacity
    ensures Keys(Access(capacity, s, k, v)) ==
      if Has(s, k) then [k] + Drop(Keys(s), Position(Keys(s), k))
      else [k] + Take(Keys(s), capacity - 1)
  {
    if Has(s, k) {
      var held := s[Position(Keys(s), k)].value;
      FrontKeys(s, k, held);
      var s1 := ToFront(s, k, held);
      assert Keys(s1)[0] == k;
      FrontKeys(s1, k, v);
      assert Keys(ToFront(s1, k, v)) == Keys(s1);
    }
  }

  /** Taking after moving to the front is moving to the front after taking. */
  lemma TakeAfterMove(d: seq<Key>, k: Key, c: nat)
    requires Distinct(d) && 1 <= c
    ensures var full := if k in d then [k] + Drop(d, Position(d, k)) else [k] + d;
      Take(full, c) ==
        if k in Take(d, c) then [k] + Drop(Take(d, c), Position(Take(d, c), k))
        else [k] + Take(Take(d, c), c - 1)
  {
    var t := Take(d, c);
    if k in t {
      var p := Position(t, k);
      assert d[p] == k;
      assert Position(d, k) == p;
    } else if k in d {
      var p := Position(d, k);
      assert forall j :: 0 <= j < |t| ==> t[j] == d[j] && t[j] in t;
    }
  }

  /** The list is the first `capacity` distinct keys of the history read backwards. */
  lemma {:induction false} StackProperty(capacity: nat, h: seq<Item>)
    requires 1 <= capacity
    ensures Keys(AfterAccesses(capacity, h)) == Take(RecentKeys(Keys(h)), capacity)
  {
    if h != [] {
      var n := |h| - 1;
      StackProperty(capacity, h[..n]);
      assert Keys(h)[..n] == Keys(h[..n]);
      AccessKeys(capacity, AfterAccesses(capacity, h[..n]), h[n].key, h[n].value);
      TakeAfterMove(RecentKeys(Keys(h[..n])), h[n].key, capacity);
    }
  }

  /** A smaller cache always holds a prefix of what a larger one holds. */
  lemma Inclusion(c: nat, d: nat, h: seq<Item>)
    requires 1 <= c <= d
    ensures Keys(AfterAccesses(c, h)) <= Keys(AfterAccesses(d, h))
  {
    StackProperty(c, h);
    StackProperty(d, h);
  }

  /** How many accesses of h miss. */
  function Misses(capacity: nat, h: seq<Item>): nat
    requires 1 <= capacity
  {
    if h == [] then 0 else
      var n := |h| - 1;
      Misses(capacity, h[..n]) + if Has(AfterAccesses(capacity, h[..n]), h[n].key) then 0 else 1
  }

  /** More capacity never causes more misses. */
  lemma {:induction false} MoreCapacityFewerMisses(c: nat, d: nat, h: seq<Item>)
    requires 1 <= c <= d
    ensures Misses(d, h) <= Misses(c, h)
  {
    if h != [] {
      var n := |h| - 1;
      MoreCapacityFewerMisses(c, d, h[..n]);
      Inclusion(c, d, h[..n]);
      var kc, kd, k := Keys(AfterAccesses(c, h[..n])), Keys(AfterAccesses(d, h[..n])), h[n].key;
      if k in kc {
        assert kd[Position(kc, k)] == k;
      }
    }
  }

  // ----- an independent reading of the recency order

  /** The last position of k in h. */
  function LastAccess(h: seq<Key>, k: Key): (i: nat)
    requires k in h
    ensures i < |h| && h[i] == k && k !in h[i + 1..]
  {
    var n := |h| - 1;
    if h[n] == k then n else LastAccess(h[..n], k)
  }

  /** The keys accessed since the last access of k. */
  ghost function Since(h: seq<Key>, k: Key): set<Key>
    requires k in h
  {
    SetOf(h[LastAccess(h, k) + 1..])
  }

  lemma SinceStep(h: seq<Key>, k: Key)
    requires h != [] && k in h && h[|h| - 1] != k
    ensures k in h[..|h| - 1]
    ensures Since(h, k) == Since(h[..|h| - 1], k) + {h[|h| - 1]}
  {
    var n := |h| - 1;
    var i := LastAccess(h, k);
    assert h[..n][i] == k;
    assert h[i + 1..] == h[..n][i + 1..] + [h[n]];
  }

  lemma DistinctPosition(d: seq<Key>, k: Key, p: nat)
    requires Distinct(d) && p < |d| && d[p] == k
    ensures Position(d, k) == p
  {}

  /** Moving a key from behind k, or from nowhere, in front of everything. */
  lemma MoveFromBehind(d: seq<Key>, r: seq<Key>, last: Key, k: Key)
    requires Distinct(d) && Distinct(r) && k in d && k != last && last !in d[..Position(d, k)]
    requires if last in d then r == [last] + Drop(d, Position(d, last)) else r == [last] + d
    ensures SetOf(r[..Position(r, k)]) == SetOf(d[..Position(d, k)]) + {last}
  {
    hide SetOf, Drop, Distinct, Position;
    var p, tail := Position(d, k), r[1..];
    if last in d {
      PastPrefix(d, p, last, Position(d, last));
      DropAfter(d, Position(d, last), p);
    }
    assert tail[..p] == d[..p] && tail[p] == k;
    ConsPrefix(r, last, tail, p);
    DistinctPosition(r, k, p + 1);
    SetOfCons(last, d[..p]);
  }

  lemma ConsPrefix(r: seq<Key>, x: Key, tail: seq<Key>, p: nat)
    requires r == [x] + tail && p < |tail|
    ensures r[..p + 1] == [x] + tail[..p] && r[p + 1] == tail[p]
  {}

  lemma DropAfter(d: seq<Key>, q: nat, p: nat)
    requires p < q < |d|
    ensures Drop(d, q)[..p] == d[..p] && Drop(d, q)[p] == d[p]
  {}

  lemma DropBefore(d: seq<Key>, q: nat, p: nat)
    requires q < p < |d|
    ensures Drop(d, q)[..p - 1] == Drop(d[..p], q) && Drop(d, q)[p - 1] == d[p]
  {}

  lemma SetOfCons(x: Key, s: seq<Key>)
    ensures SetOf([x] + s) == SetOf(s) + {x}
  {}

  /** Moving a key that was already in front of k further to the front. */
  lemma MoveFromFront(d: seq<Key>, r: seq<Key>, last: Key, k: Key)
    requires Distinct(d) && Distinct(r) && k in d && k != last && last in d[..Position(d, k)]
    requires r == [last] + Drop(d, Position(d, last))
    ensures SetOf(r[..Position(r, k)]) == SetOf(d[..Position(d, k)]) + {last}
  {
    hide SetOf, Drop, Distinct, Position;
    var p := Position(d, k);
    var j := Position(d[..p], last);
    DistinctPosition(d, last, j);
    DropBefore(d, j, p);
    assert r[p] == k;
    DistinctPosition(r, k, p);
    assert r[..p] == [last] + Drop(d, j)[..p - 1];
    SetOfDrop(d[..p], j);
    AlreadyIn(d[..p], last);
  }

  lemma AlreadyIn(s: seq<Key>, x: Key)
    requires x in s
    ensures SetOf(s) + {x} == SetOf(s)
  {}

  lemma PastPrefix(d: seq<Key>, p: nat, x: Key, q: nat)
    requires p < |d| && q < |d| && d[q] == x && x !in d[..p]
    ensures p <= q
  {
    assert forall i :: 0 <= i < p ==> d[..p][i] == d[i] && d[i] in d[..p];
  }

  lemma SetOfDrop(s: seq<Key>, j: nat)
    requires j < |s|
    ensures SetOf([s[j]] + Drop(s, j)) == SetOf(s)
  {
    var r := [s[j]] + Drop(s, j);
    forall x | x in s
      ensures x in r
    {
      var i := Position(s, x);
      assert r[if i == j then 0 else if i < j then i + 1 else i] == x;
    }
    forall x | x in r
      ensures x in s
    {
      var i := Position(r, x);
      assert s[if i == 0 then j else if i - 1 < j then i - 1 else i] == x;
    }
  }

  /** The keys in front of k in the recency order are those accessed since k. */
  lemma {:induction false} StackDistance(h: seq<Key>, k: Key)
    requires k in h
    ensures Since(h, k) == SetOf(RecentKeys(h)[..Position(RecentKeys(h), k)])
  {
    var n := |h| - 1;
    var last, d, r := h[n], RecentKeys(h[..n]), RecentKeys(h);
    if last == k {
      assert r[0] == k;
    } else {
      SinceStep(h, k);
      StackDistance(h[..n], k);
      if last in d[..Position(d, k)] {
        MoveFromFront(d, r, last, k);
      } else {
        MoveFromBehind(d, r, last, k);
      }
    }
  }

  /** An access of k hits exactly when k was accessed before and fewer than `capacity`
      other keys have been accessed since. */
  lemma HitCriterion(capacity: nat, h: seq<Item>, k: Key)
    requires 1 <= capacity
    ensures Has(AfterAccesses(capacity, h), k) <==> k in Keys(h) && |Since(Keys(h), k)| < capacity
  {
    StackProperty(capacity, h);
    var r := RecentKeys(Keys(h));
    if k in Keys(h) {
      StackDistance(Keys(h), k);
      var p := Position(r, k);
      SetOfDistinct(r[..p]);
      if p < capacity {
        assert Take(r, capacity)[p] == k;
      } else {
        assert forall j :: 0 <= j < capacity ==> r[j] != k;
      }
    } else {
      assert k !in r;
    }
  }
}
