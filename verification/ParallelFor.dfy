/** parallel_for of common/tt_parallel_for.h: the range is cut into chunks, each
    chunk is run by its own thread, and the first stored exception is rethrown. */
module ParallelFor {
  import opened Basics
  import opened MixedRadix

  datatype Chunk = Chunk(lo: int, hi: int)

  /** The chunks cover [begin, end) in order, without gap or overlap. */
  ghost predicate IsPartition(chunks: seq<Chunk>, begin: int, end: int) {
    && (forall t :: 0 <= t < |chunks| ==> chunks[t].lo <= chunks[t].hi)
    && (forall t :: 0 <= t < |chunks| - 1 ==> chunks[t].hi == chunks[t + 1].lo)
    && if |chunks| == 0 then begin == end
       else chunks[0].lo == begin && chunks[|chunks| - 1].hi == end
  }

  lemma WorkCovers(total: nat, n: nat)
    requires 1 <= n
    ensures var w := (total + n - 1) / n;
            && w >= 0 && total <= n * w && n * w < total + n
            && (1 <= total < n ==> w == 1) && (total >= 1 ==> w >= 1)
  {
    var w := (total + n - 1) / n;
    assert total + n - 1 == w * n + (total + n - 1) % n;
    if 1 <= total {
      MulStrict(0, w, n);
      if total < n { MulStrict(w, 2, n); }
    }
  }

  lemma LastChunk(total: nat, n: nat, w: nat)
    requires 1 <= n && total <= n * w && (1 <= total < n ==> w == 1)
    ensures MinOf(MinOf(n, total) * w, total) == total
  {}

  lemma ShareBound(size: int, w: int, n: nat, total: nat)
    requires size <= w && n * w < total + n
    ensures size * n < total + n
  {
    MulMono(size, w, n);
  }

  /** Where the t-th chunk starts, counted from the start of the range. */
  function CutPoint(total: nat, share: nat, t: nat): int {
    if t * share < total then t * share else total
  }

  lemma NextCut(total: nat, share: nat, t: nat)
    ensures CutPoint(total, share, t) + MinOf(share, MaxOf(0, total - t * share)) == CutPoint(total, share, t + 1)
    ensures CutPoint(total, share, t) <= CutPoint(total, share, t + 1) <= CutPoint(total, share, t) + share
    ensures t * share >= 0
  {
    Distribute(t, 1, share);
    MulMono(0, t, share);
  }

  lemma ChunksMeet(chunks: seq<Chunk>, begin: int, total: nat, share: nat)
    requires forall t :: 0 <= t < |chunks| ==>
      chunks[t] == Chunk(begin + CutPoint(total, share, t), begin + CutPoint(total, share, t + 1))
    requires |chunks| == 0 ==> total == 0
    requires |chunks| > 0 ==> CutPoint(total, share, |chunks|) == total
    ensures IsPartition(chunks, begin, begin + total)
    ensures forall t :: 0 <= t < |chunks| ==> chunks[t].hi - chunks[t].lo <= share
  {
    assert CutPoint(total, share, 0) == 0;
    hide CutPoint;
    forall t | 0 <= t < |chunks|
      ensures chunks[t].lo <= chunks[t].hi <= chunks[t].lo + share
    {
      NextCut(total, share, t);
    }
    forall t | 0 <= t < |chunks| - 1
      ensures chunks[t].hi == chunks[t + 1].lo
    {
      assert chunks[t + 1] == Chunk(begin + CutPoint(total, share, t + 1), begin + CutPoint(total, share, t + 1 + 1));
    }
    if |chunks| > 0 {
      assert chunks[0] == Chunk(begin + CutPoint(total, share, 0), begin + CutPoint(total, share, 0 + 1));
      assert chunks[|chunks| - 1] == Chunk(begin + CutPoint(total, share, |chunks| - 1), begin + CutPoint(total, share, |chunks|));
    }
  }

  lemma CutPointIs(total: nat, share: nat, t: nat)
    ensures CutPoint(total, share, t) == if t * share < total then t * share else total
  {}

  lemma ChunkPlaces(chunks: seq<Chunk>, begin: int, total: nat, share: nat, n: nat)
    requires forall t :: 0 <= t < |chunks| ==>
      chunks[t] == Chunk(begin + CutPoint(total, share, t), begin + CutPoint(total, share, t + 1))
    requires n * share < total + n
    ensures forall t :: 0 <= t < |chunks| ==>
      && (chunks[t].hi - chunks[t].lo) * n < total + n
      && chunks[t].lo == begin + (if t * share < total then t * share else total)
      && chunks[t].hi == begin + (if (t + 1) * share < total then (t + 1) * share else total)
  {
    hide CutPoint;
    forall t | 0 <= t < |chunks|
      ensures (chunks[t].hi - chunks[t].lo) * n < total + n
      ensures chunks[t].lo == begin + (if t * share < total then t * share else total)
      ensures chunks[t].hi == begin + (if (t + 1) * share < total then (t + 1) * share else total)
    {
      NextCut(total, share, t);
      ShareBound(chunks[t].hi - chunks[t].lo, share, n, total);
      CutPointIs(total, share, t);
      CutPointIs(total, share, t + 1);
    }
  }

  /** The chunking loop. A range of at most one chunk per element is cut into
      min(num_threads, size) chunks; all are as large as the rounded-up share, as long as
      there is that much left. */
  method CutChunks(begin: int, end: int, numThreads: nat) returns (chunks: seq<Chunk>)
    requires begin <= end && 1 <= numThreads
    ensures IsPartition(chunks, begin, end)
    ensures |chunks| == MinOf(numThreads, end - begin)
    ensures forall t :: 0 <= t < |chunks| ==> (chunks[t].hi - chunks[t].lo) * numThreads < (end - begin) + numThreads
    ensures var total := end - begin; var share := (total + numThreads - 1) / numThreads;
      forall t :: 0 <= t < |chunks| ==>
        && chunks[t].lo == begin + (if t * share < total then t * share else total)
        && chunks[t].hi == begin + (if (t + 1) * share < total then (t + 1) * share else total)
  {
    var totalWork := end - begin;
    var workPerThread := (totalWork + numThreads - 1) / numThreads;
    WorkCovers(totalWork, numThreads);
    LastChunk(totalWork, numThreads, workPerThread);
    chunks := [];
    var chunkStart := begin;
    var t := 0;
    while t < numThreads && t < totalWork
      invariant 0 <= t == |chunks| && t <= numThreads && t <= totalWork
      invariant chunkStart == begin + CutPoint(totalWork, workPerThread, t)
      invariant forall k :: 0 <= k < t ==>
        chunks[k] == Chunk(begin + CutPoint(totalWork, workPerThread, k), begin + CutPoint(totalWork, workPerThread, k + 1))
    {
      NextCut(totalWork, workPerThread, t);
      hide CutPoint;
      var chunkEnd := chunkStart + MinOf(workPerThread, MaxOf(0, totalWork - t * workPerThread));
      chunks := chunks + [Chunk(chunkStart, chunkEnd)];
      chunkStart := chunkEnd;
      t := t + 1;
    }
    ChunksMeet(chunks, begin, totalWork, workPerThread);
    ChunkPlaces(chunks, begin, totalWork, workPerThread, numThreads);
    hide CutPoint, IsPartition;
  }

  // ----- the threads

  /** What one call of the body does to the location of its index: it writes it, or
      it throws and leaves some value there. */
  datatype Outcome<V, E> = Wrote(v: V) | Threw(v: V, e: E)

  /** The work: every index owns a location of the shared memory, and the body reads
      and writes no other mutable location. */
  datatype Job<!L, !V, E> = Job(begin: int, end: int, chunks: seq<Chunk>, own: int -> L,
                               body: (int, V) -> Outcome<V, E>, init: map<L, V>)
  {
    ghost predicate Valid() {
      && begin <= end
      && IsPartition(chunks, begin, end)
      && (forall i :: begin <= i < end ==> own(i) in init)
      && (forall i, k :: begin <= i < k < end ==> own(i) != own(k))
    }

    /** The outcome of the body on the initial memory. */
    ghost function At(i: int): Outcome<V, E>
      requires Valid() && begin <= i < end
    {
      body(i, init[own(i)])
    }
  }

  /** A thread: the next index of its chunk, the result of a body call that is not
      yet stored, and its exception slot. */
  datatype Thread<V, E> = Thread(next: int, pending: Option<Outcome<V, E>>, slot: Option<E>)

  datatype Sys<!L, V, E> = Sys(mem: map<L, V>, threads: seq<Thread<V, E>>)

  ghost predicate Init<L, V, E>(j: Job<L, V, E>, s: Sys<L, V, E>) {
    && s.mem == j.init
    && |s.threads| == |j.chunks|
    && forall t :: 0 <= t < |s.threads| ==> s.threads[t] == Thread(j.chunks[t].lo, None, None)
  }

  /** Thread t calls the body on its next index: it reads the index's location. */
  ghost predicate CallStep<L, V, E>(j: Job<L, V, E>, s: Sys<L, V, E>, s': Sys<L, V, E>, t: nat) {
    && t < |s.threads| == |j.chunks|
    && var th := s.threads[t];
    && th.pending.None? && th.slot.None? && th.next < j.chunks[t].hi
    && j.own(th.next) in s.mem
    && s' == s.(threads := s.threads[t := th.(pending := Some(j.body(th.next, s.mem[j.own(th.next)])))])
  }

  /** Thread t stores the result of its body call; a throw ends the thread's chunk. */
  ghost predicate StoreStep<L, V, E>(j: Job<L, V, E>, s: Sys<L, V, E>, s': Sys<L, V, E>, t: nat) {
    && t < |s.threads| == |j.chunks|
    && var th := s.threads[t];
    && th.pending.Some?
    && s' == Sys(s.mem[j.own(th.next) := th.pending.value.v],
                 s.threads[t := match th.pending.value
                                case Wrote(_) => Thread(th.next + 1, None, None)
                                case Threw(_, e) => Thread(th.next, None, Some(e))])
  }

  ghost predicate Step<L, V, E>(j: Job<L, V, E>, s: Sys<L, V, E>, s': Sys<L, V, E>) {
    exists t: nat :: CallStep(j, s, s', t) || StoreStep(j, s, s', t)
  }

  /** A run: any interleaving of the threads' steps. */
  ghost predicate Run<L, V, E>(j: Job<L, V, E>, trace: seq<Sys<L, V, E>>) {
    && |trace| >= 1 && Init(j, trace[0])
    && forall k :: 0 <= k < |trace| - 1 ==> Step(j, trace[k], trace[k + 1])
  }

  ghost predicate ThreadDone<V, E>(c: Chunk, th: Thread<V, E>) {
    th.pending.None? && (th.slot.Some? || th.next == c.hi)
  }

  /** All threads can be joined. */
  ghost predicate Done<L, V, E>(j: Job<L, V, E>, s: Sys<L, V, E>) {
    |s.threads| == |j.chunks| && forall t :: 0 <= t < |s.threads| ==> ThreadDone(j.chunks[t], s.threads[t])
  }

  /** The exception that the final loop over the slots rethrows. */
  function Rethrown<V, E>(threads: seq<Thread<V, E>>): Option<E> {
    if |threads| == 0 then None
    else if threads[0].slot.Some? then threads[0].slot
    else Rethrown(threads[1..])
  }

  /** The plain loop: up to and including the first index that throws. */
  ghost function Sequential<L, V, E>(j: Job<L, V, E>, mem: map<L, V>, i: int): (map<L, V>, Option<E>)
    requires j.Valid() && j.begin <= i <= j.end && mem.Keys == j.init.Keys
    decreases j.end - i
  {
    if i == j.end then (mem, None) else
      match j.body(i, mem[j.own(i)])
      case Wrote(v) => Sequential(j, mem[j.own(i) := v], i + 1)
      case Threw(v, e) => (mem[j.own(i) := v], Some(e))
  }

  // ----- the invariant

  ghost predicate ThreadInv<L, V, E>(j: Job<L, V, E>, c: Chunk, th: Thread<V, E>)
    requires j.Valid() && j.begin <= c.lo && c.hi <= j.end
  {
    && c.lo <= th.next <= c.hi
    && (forall i :: c.lo <= i < th.next ==> j.At(i).Wrote?)
    && (th.pending.Some? ==> th.next < c.hi && th.slot.None? && th.pending.value == j.At(th.next))
    && (th.slot.Some? ==> th.next < c.hi && j.At(th.next).Threw? && j.At(th.next).e == th.slot.value)
  }

  ghost predicate Executed<V, E>(th: Thread<V, E>, i: int) {
    i < th.next || (i == th.next && th.slot.Some?)
  }

  lemma {:induction false} ChunkInRange(chunks: seq<Chunk>, begin: int, end: int, t: nat)
    requires IsPartition(chunks, begin, end) && t < |chunks|
    ensures begin <= chunks[t].lo <= chunks[t].hi <= end
    ensures forall u :: 0 <= u < t ==> chunks[u].hi <= chunks[t].lo
    ensures forall u :: t < u < |chunks| ==> chunks[t].hi <= chunks[u].lo
  {
    ChunksAscend(chunks, begin, end, 0, t);
    ChunksAscend(chunks, begin, end, t, |chunks| - 1);
    forall u | 0 <= u < t
      ensures chunks[u].hi <= chunks[t].lo
    {
      ChunksAscend(chunks, begin, end, u, t);
    }
    forall u | t < u < |chunks|
      ensures chunks[t].hi <= chunks[u].lo
    {
      ChunksAscend(chunks, begin, end, t, u);
    }
  }

  lemma {:induction false} ChunksAscend(chunks: seq<Chunk>, begin: int, end: int, t: nat, u: nat)
    requires IsPartition(chunks, begin, end) && t <= u < |chunks|
    ensures chunks[t].lo <= chunks[u].lo && chunks[t].hi <= chunks[u].hi
    ensures t < u ==> chunks[t].hi <= chunks[u].lo
    decreases u - t
  {
    if t < u {
      ChunksAscend(chunks, begin, end, t + 1, u);
    }
  }

  ghost predicate Inv<L, V, E>(j: Job<L, V, E>, s: Sys<L, V, E>)
    requires j.Valid()
  {
    && |s.threads| == |j.chunks|
    && s.mem.Keys == j.init.Keys
    && (forall t :: 0 <= t < |s.threads| ==>
          j.begin <= j.chunks[t].lo && j.chunks[t].hi <= j.end
          && ThreadInv(j, j.chunks[t], s.threads[t]) && ChunkMem(j, s, t))
    && (forall l :: l in j.init && (forall i :: j.begin <= i < j.end ==> j.own(i) != l) ==> s.mem[l] == j.init[l])
  }

  lemma InvInit<L, V, E>(j: Job<L, V, E>, s: Sys<L, V, E>)
    requires j.Valid() && Init(j, s)
    ensures Inv(j, s)
  {
    forall t | 0 <= t < |s.threads|
      ensures j.begin <= j.chunks[t].lo && j.chunks[t].hi <= j.end
      ensures ThreadInv(j, j.chunks[t], s.threads[t]) && ChunkMem(j, s, t)
    {
      ChunkInRange(j.chunks, j.begin, j.end, t);
    }
  }

  /** The invariant of one thread's indices in the shared memory. */
  ghost predicate ChunkMem<L, V, E>(j: Job<L, V, E>, s: Sys<L, V, E>, t: nat)
    requires j.Valid() && |s.threads| == |j.chunks| && s.mem.Keys == j.init.Keys && t < |s.threads|
    requires j.begin <= j.chunks[t].lo && j.chunks[t].hi <= j.end
  {
    forall i :: j.chunks[t].lo <= i < j.chunks[t].hi ==>
      s.mem[j.own(i)] == if Executed(s.threads[t], i) then j.At(i).v else j.init[j.own(i)]
  }

  lemma InvCall<L, V, E>(j: Job<L, V, E>, s: Sys<L, V, E>, s': Sys<L, V, E>, t: nat)
    requires j.Valid() && Inv(j, s) && CallStep(j, s, s', t)
    ensures Inv(j, s')
  {
    var i := s.threads[t].next;
    assert ThreadInv(j, j.chunks[t], s.threads[t]) && ChunkMem(j, s, t);
    assert s'.threads[t].pending.value == j.At(i);
    forall u | 0 <= u < |s'.threads|
      ensures ThreadInv(j, j.chunks[u], s'.threads[u]) && ChunkMem(j, s', u)
    {
      assert ThreadInv(j, j.chunks[u], s.threads[u]) && ChunkMem(j, s, u);
    }
  }

  lemma StoreOther<L, V, E>(j: Job<L, V, E>, s: Sys<L, V, E>, s': Sys<L, V, E>, t: nat, u: nat)
    requires j.Valid() && Inv(j, s) && StoreStep(j, s, s', t) && u < |s.threads| && u != t
    ensures s'.mem.Keys == j.init.Keys && ThreadInv(j, j.chunks[u], s'.threads[u]) && ChunkMem(j, s', u)
  {
    var here := s.threads[t].next;
    ChunkInRange(j.chunks, j.begin, j.end, t);
    assert ThreadInv(j, j.chunks[t], s.threads[t]);
    assert j.own(here) in j.init;
    assert ChunkMem(j, s, u);
    forall i | j.chunks[u].lo <= i < j.chunks[u].hi
      ensures j.own(i) != j.own(here)
    {
      assert i != here;
    }
  }

  lemma StoreOwn<L, V, E>(j: Job<L, V, E>, s: Sys<L, V, E>, s': Sys<L, V, E>, t: nat)
    requires j.Valid() && Inv(j, s) && StoreStep(j, s, s', t)
    ensures s'.mem.Keys == j.init.Keys && ThreadInv(j, j.chunks[t], s'.threads[t]) && ChunkMem(j, s', t)
  {
    var here := s.threads[t].next;
    assert ThreadInv(j, j.chunks[t], s.threads[t]) && ChunkMem(j, s, t);
    assert s.threads[t].pending.value == j.At(here);
    assert j.own(here) in j.init;
    forall i | j.chunks[t].lo <= i < j.chunks[t].hi && i != here
      ensures j.own(i) != j.own(here)
    {}
  }

  lemma InvStore<L, V, E>(j: Job<L, V, E>, s: Sys<L, V, E>, s': Sys<L, V, E>, t: nat)
    requires j.Valid() && Inv(j, s) && StoreStep(j, s, s', t)
    ensures Inv(j, s')
  {
    assert ThreadInv(j, j.chunks[t], s.threads[t]);
    StoreOwn(j, s, s', t);
    forall u | 0 <= u < |s'.threads|
      ensures ThreadInv(j, j.chunks[u], s'.threads[u]) && ChunkMem(j, s', u)
    {
      if u != t { StoreOther(j, s, s', t, u); }
    }
  }

  lemma {:induction false} InvRun<L, V, E>(j: Job<L, V, E>, trace: seq<Sys<L, V, E>>)
    requires j.Valid() && Run(j, trace)
    ensures Inv(j, trace[|trace| - 1])
  {
    var n := |trace| - 1;
    if n == 0 {
      InvInit(j, trace[0]);
    } else {
      InvRun(j, trace[..n]);
      var t: nat :| CallStep(j, trace[n - 1], trace[n], t) || StoreStep(j, trace[n - 1], trace[n], t);
      if CallStep(j, trace[n - 1], trace[n], t) {
        InvCall(j, trace[n - 1], trace[n], t);
      } else {
        InvStore(j, trace[n - 1], trace[n], t);
      }
    }
  }

  // ----- parallel equals sequential

  ghost predicate IsFirstThrow<L, V, E>(j: Job<L, V, E>, f: int)
    requires j.Valid()
  {
    j.begin <= f < j.end && j.At(f).Threw? && forall i :: j.begin <= i < f ==> j.At(i).Wrote?
  }

  /** The memory after exactly the indices below bound have run. */
  ghost predicate RanBelow<L, V, E>(j: Job<L, V, E>, mem: map<L, V>, bound: int)
    requires j.Valid()
  {
    && mem.Keys == j.init.Keys
    && (forall i :: j.begin <= i < j.end ==> mem[j.own(i)] == if i < bound then j.At(i).v else j.init[j.own(i)])
    && (forall l :: l in j.init && (forall i :: j.begin <= i < j.end ==> j.own(i) != l) ==> mem[l] == j.init[l])
  }

  lemma {:induction false} SequentialMeaning<L, V, E>(j: Job<L, V, E>, mem: map<L, V>, i: int)
    requires j.Valid() && j.begin <= i <= j.end && RanBelow(j, mem, i)
    requires forall k :: j.begin <= k < i ==> j.At(k).Wrote?
    ensures var (m, e) := Sequential(j, mem, i);
      match e
      case None => RanBelow(j, m, j.end) && forall k :: j.begin <= k < j.end ==> j.At(k).Wrote?
      case Some(x) => exists f :: IsFirstThrow(j, f) && j.At(f).e == x && RanBelow(j, m, f + 1)
    decreases j.end - i
  {
    if i < j.end {
      var mem' := mem[j.own(i) := j.At(i).v];
      assert mem[j.own(i)] == j.init[j.own(i)];
      forall k | j.begin <= k < j.end
        ensures mem'[j.own(k)] == if k < i + 1 then j.At(k).v else j.init[j.own(k)]
      {
        assert k == i || j.own(k) != j.own(i);
      }
      assert RanBelow(j, mem', i + 1);
      if j.At(i).Wrote? {
        SequentialMeaning(j, mem', i + 1);
      } else {
        assert IsFirstThrow(j, i);
      }
    }
  }

  lemma {:induction false} RethrownIsFirst<V, E>(threads: seq<Thread<V, E>>)
    ensures match Rethrown(threads)
      case None => forall t :: 0 <= t < |threads| ==> threads[t].slot.None?
      case Some(e) => exists t :: 0 <= t < |threads| && threads[t].slot == Some(e)
                              && forall u :: 0 <= u < t ==> threads[u].slot.None?
  {
    if |threads| > 0 && threads[0].slot.None? {
      RethrownIsFirst(threads[1..]);
      if Rethrown(threads).Some? {
        var t :| 0 <= t < |threads[1..]| && threads[1..][t].slot == Rethrown(threads)
                 && forall u :: 0 <= u < t ==> threads[1..][u].slot.None?;
        forall u | 0 <= u < t + 1
          ensures threads[u].slot.None?
        {
          if u > 0 { assert threads[1..][u - 1].slot.None?; }
        }
        assert threads[t + 1].slot == Rethrown(threads);
      } else {
        forall t | 0 <= t < |threads|
          ensures threads[t].slot.None?
        {
          if t > 0 { assert threads[1..][t - 1].slot.None?; }
        }
      }
    }
  }

  /** Every index of the range lies in some chunk. */
  lemma {:induction false} ChunkOf(chunks: seq<Chunk>, begin: int, end: int, i: int) returns (t: nat)
    requires IsPartition(chunks, begin, end) && begin <= i < end
    ensures t < |chunks| && chunks[t].lo <= i < chunks[t].hi
  {
    t := 0;
    while chunks[t].hi <= i
      invariant t < |chunks| && chunks[t].lo <= i
      decreases |chunks| - t
    {
      t := t + 1;
    }
  }

  /** What is known of an index when all threads are done: its thread ran it unless
      the thread stopped at a throw before it. */
  lemma DoneIndex<L, V, E>(j: Job<L, V, E>, s: Sys<L, V, E>, i: int) returns (t: nat)
    requires j.Valid() && Inv(j, s) && Done(j, s) && j.begin <= i < j.end
    ensures t < |s.threads| && j.chunks[t].lo <= i < j.chunks[t].hi
    ensures s.threads[t].slot.None? ==> j.At(i).Wrote? && s.mem[j.own(i)] == j.At(i).v
    ensures s.threads[t].slot.Some? && i < s.threads[t].next ==> j.At(i).Wrote?
    ensures s.threads[t].slot.Some? && i <= s.threads[t].next ==> s.mem[j.own(i)] == j.At(i).v
  {
    t := ChunkOf(j.chunks, j.begin, j.end, i);
    assert ThreadInv(j, j.chunks[t], s.threads[t]) && ChunkMem(j, s, t);
    assert ThreadDone(j.chunks[t], s.threads[t]);
  }

  lemma NoThrowEnds<L, V, E>(j: Job<L, V, E>, s: Sys<L, V, E>)
    requires j.Valid() && Inv(j, s) && Done(j, s)
    requires forall t :: 0 <= t < |s.threads| ==> s.threads[t].slot.None?
    ensures RanBelow(j, s.mem, j.end) && forall i :: j.begin <= i < j.end ==> j.At(i).Wrote?
  {
    forall i | j.begin <= i < j.end
      ensures j.At(i).Wrote? && s.mem[j.own(i)] == j.At(i).v
    {
      var t := DoneIndex(j, s, i);
    }
  }

  lemma FirstSlotIsFirstThrow<L, V, E>(j: Job<L, V, E>, s: Sys<L, V, E>, t: nat)
    requires j.Valid() && Inv(j, s) && Done(j, s) && t < |s.threads| && s.threads[t].slot.Some?
    requires forall u :: 0 <= u < t ==> s.threads[u].slot.None?
    ensures IsFirstThrow(j, s.threads[t].next) && j.At(s.threads[t].next).e == s.threads[t].slot.value
    ensures forall i :: j.begin <= i <= s.threads[t].next ==> s.mem[j.own(i)] == j.At(i).v
  {
    var f := s.threads[t].next;
    assert ThreadInv(j, j.chunks[t], s.threads[t]);
    ChunkInRange(j.chunks, j.begin, j.end, t);
    forall i | j.begin <= i <= f
      ensures i < f ==> j.At(i).Wrote?
      ensures s.mem[j.own(i)] == j.At(i).v
    {
      var u := DoneIndex(j, s, i);
      ChunkInRange(j.chunks, j.begin, j.end, u);
    }
  }

  lemma SameMemory<L, V, E>(j: Job<L, V, E>, a: map<L, V>, b: map<L, V>)
    requires j.Valid() && RanBelow(j, a, j.end) && RanBelow(j, b, j.end)
    ensures a == b
  {
    forall l | l in j.init
      ensures a[l] == b[l]
    {
      if i :| j.begin <= i < j.end && j.own(i) == l {
        assert a[j.own(i)] == b[j.own(i)];
      }
    }
  }

  lemma EndWithoutThrow<L, V, E>(j: Job<L, V, E>, s: Sys<L, V, E>)
    requires j.Valid() && Inv(j, s) && Done(j, s) && Rethrown(s.threads).None?
    ensures Sequential(j, j.init, j.begin) == (s.mem, None)
  {
    assert RanBelow(j, j.init, j.begin);
    SequentialMeaning(j, j.init, j.begin);
    RethrownIsFirst(s.threads);
    NoThrowEnds(j, s);
    var (mem, exception) := Sequential(j, j.init, j.begin);
    assert !exists f :: IsFirstThrow(j, f);
    SameMemory(j, s.mem, mem);
  }

  lemma EndWithThrow<L, V, E>(j: Job<L, V, E>, s: Sys<L, V, E>) returns (f: int)
    requires j.Valid() && Inv(j, s) && Done(j, s) && Rethrown(s.threads).Some?
    ensures IsFirstThrow(j, f)
    ensures Sequential(j, j.init, j.begin).1 == Rethrown(s.threads) == Some(j.At(f).e)
    ensures Sequential(j, j.init, j.begin).0.Keys == j.init.Keys
    ensures forall i :: j.begin <= i <= f ==> s.mem[j.own(i)] == Sequential(j, j.init, j.begin).0[j.own(i)]
  {
    hide Done, ThreadInv, ChunkMem, Sequential;
    assert RanBelow(j, j.init, j.begin);
    SequentialMeaning(j, j.init, j.begin);
    RethrownIsFirst(s.threads);
    var t: nat :| t < |s.threads| && s.threads[t].slot == Rethrown(s.threads)
            && forall u :: 0 <= u < t ==> s.threads[u].slot.None?;
    FirstSlotIsFirstThrow(j, s, t);
    f := s.threads[t].next;
    assert forall g :: IsFirstThrow(j, g) ==> g == f;
  }

  /** Every complete interleaving rethrows exactly the exception the plain loop would
      throw. Without a throw it also leaves exactly the plain loop's memory; with one,
      the memory agrees on all indices up to the first that throws. */
  lemma ParallelEqualsSequential<L, V, E>(j: Job<L, V, E>, trace: seq<Sys<L, V, E>>)
    requires j.Valid() && Run(j, trace) && Done(j, trace[|trace| - 1])
    ensures var s := trace[|trace| - 1];
      var (mem, exception) := Sequential(j, j.init, j.begin);
      && Rethrown(s.threads) == exception
      && (exception.None? ==> s.mem == mem)
      && s.mem.Keys == mem.Keys == j.init.Keys
      && forall f :: IsFirstThrow(j, f) ==> forall i :: j.begin <= i <= f ==> s.mem[j.own(i)] == mem[j.own(i)]
  {
    var s := trace[|trace| - 1];
    InvRun(j, trace);
    hide Done, Run;
    if Rethrown(s.threads).None? {
      EndWithoutThrow(j, s);
    } else {
      var f := EndWithThrow(j, s);
      assert forall g :: IsFirstThrow(j, g) ==> g == f;
    }
  }

  // ----- every run ends

  ghost function Left<V, E>(c: Chunk, th: Thread<V, E>): int {
    if th.slot.Some? then 0 else 2 * (c.hi - th.next) - (if th.pending.Some? then 1 else 0)
  }

  ghost function TotalLeft<V, E>(chunks: seq<Chunk>, threads: seq<Thread<V, E>>): int
    requires |chunks| == |threads|
  {
    if |chunks| == 0 then 0
    else TotalLeft(chunks[..|chunks| - 1], threads[..|threads| - 1]) + Left(chunks[|chunks| - 1], threads[|threads| - 1])
  }

  lemma {:induction false} LeftUpdate<V, E>(chunks: seq<Chunk>, threads: seq<Thread<V, E>>, t: nat, th: Thread<V, E>)
    requires |chunks| == |threads| && t < |threads|
    ensures TotalLeft(chunks, threads[t := th]) == TotalLeft(chunks, threads) - Left(chunks[t], threads[t]) + Left(chunks[t], th)
  {
    var n := |threads| - 1;
    if t < n {
      LeftUpdate(chunks[..n], threads[..n], t, th);
      assert threads[t := th][..n] == threads[..n][t := th];
    } else {
      assert threads[t := th][..n] == threads[..n];
    }
  }

  lemma {:induction false} LeftBounds<V, E>(chunks: seq<Chunk>, threads: seq<Thread<V, E>>)
    requires |chunks| == |threads|
    requires forall t :: 0 <= t < |chunks| ==> Left(chunks[t], threads[t]) >= 0
    ensures TotalLeft(chunks, threads) >= 0
  {
    if |chunks| > 0 {
      LeftBounds(chunks[..|chunks| - 1], threads[..|chunks| - 1]);
    }
  }

  lemma {:induction false} LeftAtStart<V, E>(chunks: seq<Chunk>, begin: int, end: int, threads: seq<Thread<V, E>>)
    requires IsPartition(chunks, begin, end) && |threads| == |chunks|
    requires forall t :: 0 <= t < |threads| ==> threads[t] == Thread(chunks[t].lo, None, None)
    ensures TotalLeft(chunks, threads) == 2 * (end - begin)
  {
    if |chunks| > 0 {
      var n := |chunks| - 1;
      LeftAtStart(chunks[..n], begin, chunks[n].lo, threads[..n]);
    }
  }

  lemma {:induction false} RunSpendsWork<L, V, E>(j: Job<L, V, E>, trace: seq<Sys<L, V, E>>)
    requires j.Valid() && Run(j, trace)
    ensures |trace[|trace| - 1].threads| == |j.chunks|
    ensures TotalLeft(j.chunks, trace[|trace| - 1].threads) + |trace| - 1 <= 2 * (j.end - j.begin)
  {
    var n := |trace| - 1;
    InvRun(j, trace);
    if n == 0 {
      LeftAtStart(j.chunks, j.begin, j.end, trace[0].threads);
    } else {
      RunSpendsWork(j, trace[..n]);
      InvRun(j, trace[..n]);
      StepSpendsWork(j, trace[n - 1], trace[n]);
    }
  }

  lemma StepSpendsWork<L, V, E>(j: Job<L, V, E>, s: Sys<L, V, E>, s': Sys<L, V, E>)
    requires j.Valid() && Inv(j, s) && Step(j, s, s')
    ensures |s'.threads| == |j.chunks|
    ensures TotalLeft(j.chunks, s'.threads) < TotalLeft(j.chunks, s.threads)
  {
    var t := StepOnThread(j, s, s');
    LeftUpdate(j.chunks, s.threads, t, s'.threads[t]);
  }

  lemma StepOnThread<L, V, E>(j: Job<L, V, E>, s: Sys<L, V, E>, s': Sys<L, V, E>) returns (t: nat)
    requires j.Valid() && Inv(j, s) && Step(j, s, s')
    ensures t < |s.threads| == |s'.threads| == |j.chunks|
    ensures s'.threads == s.threads[t := s'.threads[t]]
    ensures Left(j.chunks[t], s'.threads[t]) < Left(j.chunks[t], s.threads[t])
  {
    t :| CallStep(j, s, s', t) || StoreStep(j, s, s', t);
    assert ThreadInv(j, j.chunks[t], s.threads[t]);
  }

  /** No interleaving runs for ever: it takes at most two steps per index, and as
      long as a thread is not done some thread can step. */
  lemma RunsTerminate<L, V, E>(j: Job<L, V, E>, trace: seq<Sys<L, V, E>>) returns (s': Sys<L, V, E>)
    requires j.Valid() && Run(j, trace)
    ensures |trace| - 1 <= 2 * (j.end - j.begin)
    ensures !Done(j, trace[|trace| - 1]) ==> Step(j, trace[|trace| - 1], s')
  {
    var s := trace[|trace| - 1];
    s' := s;
    InvRun(j, trace);
    RunSpendsWork(j, trace);
    forall t | 0 <= t < |s.threads|
      ensures Left(j.chunks[t], s.threads[t]) >= 0
    {
      assert ThreadInv(j, j.chunks[t], s.threads[t]);
    }
    LeftBounds(j.chunks, s.threads);
    if !Done(j, s) {
      s' := SomeStep(j, s);
    }
  }

  lemma SomeStep<L, V, E>(j: Job<L, V, E>, s: Sys<L, V, E>) returns (s': Sys<L, V, E>)
    requires j.Valid() && Inv(j, s) && !Done(j, s)
    ensures Step(j, s, s')
  {
    var t: nat :| t < |s.threads| && !ThreadDone(j.chunks[t], s.threads[t]);
    assert ThreadInv(j, j.chunks[t], s.threads[t]);
    var th := s.threads[t];
    if th.pending.Some? {
      s' := Sys(s.mem[j.own(th.next) := th.pending.value.v],
                s.threads[t := match th.pending.value
                               case Wrote(_) => Thread(th.next + 1, None, None)
                               case Threw(_, e) => Thread(th.next, None, Some(e))]);
      assert StoreStep(j, s, s', t);
    } else {
      s' := s.(threads := s.threads[t := th.(pending := Some(j.body(th.next, s.mem[j.own(th.next)])))]);
      assert CallStep(j, s, s', t);
    }
  }
}
