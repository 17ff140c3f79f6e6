/** A producer and a consumer that share a queue through copies of tt_queue_ptr.
    Each moves only its own pointer; it sees the other side's pointer as of the last
    time it refreshed its copy from the published one. */
module StaleView {
  import opened Basics
  import opened MixedRadix
  import opened QueuePtr

  /** How far the two sides have really got, as counts of entries since the start:
      the published write count, the one the consumer has seen, and likewise for reads. */
  datatype Counts = Counts(pubWr: nat, seenWr: nat, pubRd: nat, seenRd: nat)

  /** The buffer, both sides' copies, the published pointers, and the history. */
  datatype Sys<T> = Sys(
    slots: nat, mem: seq<T>,
    prodWr: nat, prodRd: nat,   // the producer's copy: own pointer, view of the other
    consRd: nat, consWr: nat,   // the consumer's copy
    pubWr: nat, pubRd: nat,     // what each side has published
    produced: seq<T>, consumed: seq<T>, counts: Counts)

  ghost predicate Init<T>(s: Sys<T>) {
    && 1 <= s.slots <= U16 / 2 && |s.mem| == s.slots
    && s.prodWr == s.prodRd == s.consRd == s.consWr == s.pubWr == s.pubRd == 0
    && s.produced == s.consumed == [] && s.counts == Counts(0, 0, 0, 0)
  }

  /** The producer stores an entry in its next slot and moves its pointer, provided its
      own view leaves room. */
  ghost predicate Write<T>(s: Sys<T>, s': Sys<T>) {
    && s.slots >= 1 && FreeSpace(s.prodRd, s.prodWr, s.slots, 2 * s.slots) >= 1
    && InRange(s.prodWr, s.slots) < |s.mem|
    && |s'.produced| == |s.produced| + 1
    && var x := s'.produced[|s.produced|];
       s' == s.(mem := s.mem[InRange(s.prodWr, s.slots) := x],
                prodWr := Incr(s.prodWr, 1, 2 * s.slots), produced := s.produced + [x])
  }

  /** The consumer takes the entry in its next slot, provided its own view shows one. */
  ghost predicate Read<T>(s: Sys<T>, s': Sys<T>) {
    && s.slots >= 1 && Occupancy(s.consRd, s.consWr, 2 * s.slots) >= 1
    && InRange(s.consRd, s.slots) < |s.mem|
    && s' == s.(consumed := s.consumed + [s.mem[InRange(s.consRd, s.slots)]],
                consRd := Incr(s.consRd, 1, 2 * s.slots))
  }

  ghost predicate PublishWr<T>(s: Sys<T>, s': Sys<T>) {
    s' == s.(pubWr := s.prodWr, counts := s.counts.(pubWr := |s.produced|))
  }

  ghost predicate PublishRd<T>(s: Sys<T>, s': Sys<T>) {
    s' == s.(pubRd := s.consRd, counts := s.counts.(pubRd := |s.consumed|))
  }

  ghost predicate RefreshProducer<T>(s: Sys<T>, s': Sys<T>) {
    s' == s.(prodRd := s.pubRd, counts := s.counts.(seenRd := s.counts.pubRd))
  }

  ghost predicate RefreshConsumer<T>(s: Sys<T>, s': Sys<T>) {
    s' == s.(consWr := s.pubWr, counts := s.counts.(seenWr := s.counts.pubWr))
  }

  ghost predicate Step<T>(s: Sys<T>, s': Sys<T>) {
    Write(s, s') || Read(s, s') || PublishWr(s, s') || PublishRd(s, s') || RefreshProducer(s, s') || RefreshConsumer(s, s')
  }

  /** Any interleaving of the two sides' steps. */
  ghost predicate Run<T>(trace: seq<Sys<T>>) {
    && |trace| >= 1 && Init(trace[0])
    && forall k :: 0 <= k < |trace| - 1 ==> Step(trace[k], trace[k + 1])
  }

  /** Views lag behind publications, publications behind the pointers, and the
      producer is never more than the buffer ahead of what it has seen read. */
  ghost predicate Ordered<T>(s: Sys<T>) {
    && s.counts.seenRd <= s.counts.pubRd <= |s.consumed| <= s.counts.seenWr
    && s.counts.seenWr <= s.counts.pubWr <= |s.produced| <= s.counts.seenRd + s.slots
  }

  ghost predicate Pointers<T>(s: Sys<T>) {
    var m := 2 * s.slots;
    && 1 <= s.slots <= U16 / 2
    && s.prodWr == |s.produced| % m && s.consRd == |s.consumed| % m
    && s.pubWr == s.counts.pubWr % m && s.pubRd == s.counts.pubRd % m
    && s.consWr == s.counts.seenWr % m && s.prodRd == s.counts.seenRd % m
  }

  ghost predicate Stored<T>(s: Sys<T>) {
    && 1 <= s.slots == |s.mem|
    && |s.consumed| <= |s.produced| && s.consumed == s.produced[..|s.consumed|]
    && forall i: nat :: |s.consumed| <= i < |s.produced| ==> i % s.slots < |s.mem| && s.mem[i % s.slots] == s.produced[i]
  }

  ghost predicate Inv<T>(s: Sys<T>) {
    Ordered(s) && Pointers(s) && Stored(s)
  }

  lemma Aliases(a: nat, b: nat, m: nat)
    requires a < b < a + m
    ensures a % m != b % m
  {
    ModShift(a, b - a, m);
  }

  /** The space the producer computes from its stale view never exceeds the real one,
      and the entries the consumer computes are really there. */
  lemma ViewsAreSafe<T>(s: Sys<T>)
    requires Inv(s)
    ensures 0 <= FreeSpace(s.prodRd, s.prodWr, s.slots, 2 * s.slots) <= s.slots - (|s.produced| - |s.consumed|)
    ensures 0 <= Occupancy(s.consRd, s.consWr, 2 * s.slots) <= |s.produced| - |s.consumed|
    ensures InRange(s.prodWr, s.slots) == |s.produced| % s.slots
    ensures InRange(s.consRd, s.slots) == |s.consumed| % s.slots
  {
    QueriesExact(s.prodRd, s.prodWr, s.slots, |s.produced|, s.counts.seenRd);
    QueriesExact(s.consRd, s.consWr, s.slots, s.counts.seenWr, |s.consumed|);
    SlotOf(|s.produced|, s.slots);
    SlotOf(|s.consumed|, s.slots);
  }

  lemma InvWrite<T>(s: Sys<T>, s': Sys<T>)
    requires Inv(s) && Write(s, s')
    ensures Inv(s')
    ensures forall i: nat :: |s.consumed| <= i < |s.produced| ==> i % s.slots != InRange(s.prodWr, s.slots)
  {
    ViewsAreSafe(s);
    QueriesExact(s.prodRd, s.prodWr, s.slots, |s.produced|, s.counts.seenRd);
    IncrIsShift(|s.produced|, 1, s.slots);
    forall i: nat | |s.consumed| <= i < |s.produced|
      ensures i % s.slots != |s.produced| % s.slots
    {
      Aliases(i, |s.produced|, s.slots);
    }
  }

  lemma InvRead<T>(s: Sys<T>, s': Sys<T>)
    requires Inv(s) && Read(s, s')
    ensures Inv(s')
    ensures |s.consumed| < |s.produced| && s'.consumed == s.consumed + [s.produced[|s.consumed|]]
  {
    ViewsAreSafe(s);
    QueriesExact(s.consRd, s.consWr, s.slots, s.counts.seenWr, |s.consumed|);
    IncrIsShift(|s.consumed|, 1, s.slots);
  }

  lemma InvInit<T>(s: Sys<T>)
    requires Init(s)
    ensures Inv(s)
  {
    DivModUnique(0, 0, 2 * s.slots, 0);
  }

  lemma InvStep<T>(s: Sys<T>, s': Sys<T>)
    requires Inv(s) && Step(s, s')
    ensures Inv(s')
  {
    if Write(s, s') {
      InvWrite(s, s');
    } else if Read(s, s') {
      InvRead(s, s');
    }
  }

  lemma {:induction false} InvRun<T>(trace: seq<Sys<T>>, k: nat)
    requires Run(trace) && k < |trace|
    ensures Inv(trace[k])
  {
    hide Inv, Step, Init;
    if k == 0 {
      InvInit(trace[0]);
    } else {
      InvRun(trace, k - 1);
      InvStep(trace[k - 1], trace[k]);
    }
  }

  /** However stale the views are: no write hits an unread entry, no read takes a slot
      that has not been written, and the consumer gets the producer's entries in order. */
  lemma StaleViewsAreSafe<T>(trace: seq<Sys<T>>, k: nat)
    requires Run(trace) && k < |trace|
    ensures trace[k].consumed <= trace[k].produced
    ensures |trace[k].produced| - |trace[k].consumed| <= trace[k].slots
    ensures k + 1 < |trace| && Write(trace[k], trace[k + 1]) ==>
      forall i: nat :: |trace[k].consumed| <= i < |trace[k].produced| ==>
        i % trace[k].slots != InRange(trace[k].prodWr, trace[k].slots)
    ensures k + 1 < |trace| && Read(trace[k], trace[k + 1]) ==> |trace[k].consumed| < |trace[k].produced|
  {
    InvRun(trace, k);
    if k + 1 < |trace| && Write(trace[k], trace[k + 1]) {
      InvWrite(trace[k], trace[k + 1]);
    }
    if k + 1 < |trace| && Read(trace[k], trace[k + 1]) {
      InvRead(trace[k], trace[k + 1]);
    }
  }

  // ----- moves by more than one entry

  /** Storing entries one after the other in the slots that a moving pointer names. */
  ghost function Filled<T>(mem: seq<T>, slots: nat, ptr: nat, xs: seq<T>): (r: seq<T>)
    requires 1 <= slots
    ensures |r| == |mem|
    decreases |xs|
  {
    if xs == [] then mem
    else Filled(if InRange(ptr, slots) < |mem| then mem[InRange(ptr, slots) := xs[0]] else mem,
                slots, Incr(ptr, 1, 2 * slots), xs[1..])
  }

  ghost function Taken<T>(mem: seq<T>, slots: nat, ptr: nat, n: nat): seq<T>
    requires 1 <= slots
    decreases n
  {
    if n == 0 || InRange(ptr, slots) >= |mem| then []
    else [mem[InRange(ptr, slots)]] + Taken(mem, slots, Incr(ptr, 1, 2 * slots), n - 1)
  }

  /** The producer stores as many entries as its view leaves room for, and then moves its
      pointer by their number at once. */
  ghost predicate WriteMany<T>(s: Sys<T>, s': Sys<T>, xs: seq<T>) {
    && s.slots >= 1 && |xs| <= FreeSpace(s.prodRd, s.prodWr, s.slots, 2 * s.slots)
    && s' == s.(mem := Filled(s.mem, s.slots, s.prodWr, xs),
                prodWr := Incr(s.prodWr, |xs|, 2 * s.slots), produced := s.produced + xs)
  }

  ghost predicate ReadMany<T>(s: Sys<T>, s': Sys<T>, n: nat) {
    && s.slots >= 1 && n <= Occupancy(s.consRd, s.consWr, 2 * s.slots)
    && s' == s.(consumed := s.consumed + Taken(s.mem, s.slots, s.consRd, n),
                consRd := Incr(s.consRd, n, 2 * s.slots))
  }

  /** Moving a pointer once more, and what that leaves of the view. */
  lemma MoveOnce(p: nat, n: nat, slots: nat)
    requires 1 <= slots <= U16 / 2 && 1 <= n <= slots
    ensures var m := 2 * slots; Incr(Incr(p % m, 1, m), n - 1, m) == Incr(p % m, n, m)
  {
    IncrIsShift(p, 1, slots);
    IncrIsShift(p + 1, n - 1, slots);
    IncrIsShift(p, n, slots);
  }

  /** One write, if the view leaves room: the view then leaves room for one entry less. */
  lemma OneWrite<T>(s: Sys<T>, x: T) returns (s1: Sys<T>)
    requires Inv(s) && FreeSpace(s.prodRd, s.prodWr, s.slots, 2 * s.slots) >= 1
    ensures s.slots >= 1 && InRange(s.prodWr, s.slots) < |s.mem|
    ensures s1 == s.(mem := s.mem[InRange(s.prodWr, s.slots) := x],
                     prodWr := Incr(s.prodWr, 1, 2 * s.slots), produced := s.produced + [x])
    ensures Write(s, s1) && Inv(s1)
    ensures FreeSpace(s1.prodRd, s1.prodWr, s.slots, 2 * s.slots) == FreeSpace(s.prodRd, s.prodWr, s.slots, 2 * s.slots) - 1
  {
    ViewsAreSafe(s);
    s1 := s.(mem := s.mem[InRange(s.prodWr, s.slots) := x],
             prodWr := Incr(s.prodWr, 1, 2 * s.slots), produced := s.produced + [x]);
    InvWrite(s, s1);
    QueriesExact(s.prodRd, s.prodWr, s.slots, |s.produced|, s.counts.seenRd);
    QueriesExact(s1.prodRd, s1.prodWr, s.slots, |s1.produced|, s.counts.seenRd);
  }

  lemma FirstWrite<T>(s: Sys<T>, s': Sys<T>, xs: seq<T>) returns (s1: Sys<T>)
    requires Inv(s) && WriteMany(s, s', xs) && xs != []
    ensures Write(s, s1) && Inv(s1) && WriteMany(s1, s', xs[1..])
  {
    RoomBound(s);
    hide Inv, Write, Incr, InRange, FreeSpace, Occupancy;
    s1 := OneWrite(s, xs[0]);
    MoveOnce(|s.produced|, |xs|, s.slots);
    assert s1.produced + xs[1..] == s.produced + xs;
  }

  lemma RoomBound<T>(s: Sys<T>)
    requires Inv(s)
    ensures 1 <= s.slots <= U16 / 2 && FreeSpace(s.prodRd, s.prodWr, s.slots, 2 * s.slots) <= s.slots
    ensures s.prodWr == |s.produced| % (2 * s.slots)
  {
    QueriesExact(s.prodRd, s.prodWr, s.slots, |s.produced|, s.counts.seenRd);
  }

  lemma NoWrite<T>(s: Sys<T>, s': Sys<T>)
    requires Inv(s) && WriteMany(s, s', [])
    ensures s' == s
  {
    IncrIsShift(|s.produced|, 0, s.slots);
    assert s.produced + [] == s.produced;
  }

  lemma FirstRead<T>(s: Sys<T>, s': Sys<T>, n: nat) returns (s1: Sys<T>)
    requires Inv(s) && ReadMany(s, s', n) && n > 0
    ensures Read(s, s1) && Inv(s1) && ReadMany(s1, s', n - 1)
  {
    ViewsAreSafe(s);
    QueriesExact(s.consRd, s.consWr, s.slots, s.counts.seenWr, |s.consumed|);
    MoveOnce(|s.consumed|, n, s.slots);
    var x := s.mem[InRange(s.consRd, s.slots)];
    s1 := s.(consumed := s.consumed + [x], consRd := Incr(s.consRd, 1, 2 * s.slots));
    InvRead(s, s1);
    hide Stored, Incr, InRange, FreeSpace, Occupancy;
    QueriesExact(s1.consRd, s1.consWr, s.slots, s.counts.seenWr, |s1.consumed|);
    var tail := Taken(s.mem, s.slots, s1.consRd, n - 1);
    assert s1.consumed + tail == s.consumed + ([x] + tail);
  }

  lemma NoRead<T>(s: Sys<T>, s': Sys<T>)
    requires Inv(s) && ReadMany(s, s', 0)
    ensures s' == s
  {
    IncrIsShift(|s.consumed|, 0, s.slots);
    assert s.consumed + [] == s.consumed;
  }

  /** A move by many entries is as many moves by one entry, with nothing published or
      refreshed in between; so what holds of runs of single moves holds of these too. */
  lemma {:induction false} WriteManyIsWrites<T>(s: Sys<T>, s': Sys<T>, xs: seq<T>) returns (trace: seq<Sys<T>>)
    requires Inv(s) && WriteMany(s, s', xs)
    ensures Inv(s') && |trace| == |xs| + 1 && trace[0] == s && trace[|xs|] == s'
    ensures forall k :: 0 <= k < |xs| ==> Write(trace[k], trace[k + 1])
    decreases |xs|
  {
    hide Inv, WriteMany, Write;
    if xs == [] {
      NoWrite(s, s');
      trace := [s];
    } else {
      var s1 := FirstWrite(s, s', xs);
      var rest := WriteManyIsWrites(s1, s', xs[1..]);
      trace := [s] + rest;
    }
  }

  lemma {:induction false} ReadManyIsReads<T>(s: Sys<T>, s': Sys<T>, n: nat) returns (trace: seq<Sys<T>>)
    requires Inv(s) && ReadMany(s, s', n)
    ensures Inv(s') && |trace| == n + 1 && trace[0] == s && trace[n] == s'
    ensures forall k :: 0 <= k < n ==> Read(trace[k], trace[k + 1])
    decreases n
  {
    hide Inv, ReadMany, Read;
    if n == 0 {
      NoRead(s, s');
      trace := [s];
    } else {
      var s1 := FirstRead(s, s', n);
      var rest := ReadManyIsReads(s1, s', n - 1);
      trace := [s] + rest;
    }
  }
}
