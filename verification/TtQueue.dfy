/** tt_queue (common/tt_queue.cpp) and the queue operations of golden/golden_io.cpp
    on top of it: global pointers that run from 0 to twice the number of entries, and
    a local read pointer for peeking. */
module TtQueue {
  import opened Basics
  import opened MixedRadix
  import QueuePtr

  /** The state of a queue object. */
  datatype Queue<T> = Queue(entries: nat, mem: seq<T>, rd: nat, wr: nat, count: int,
                            localRd: nat, localRdBase: nat, autoinc: nat, staged: bool)
  {
    predicate Full() { (rd == 0 && wr == 2 * entries) || rd == wr + 1 }

    predicate Empty() { rd == wr }

    predicate Shaped() { 1 <= entries == |mem| }
  }

  // ----- the operations as functions of the state; None is a failed log_assert

  function AfterPush<T>(q: Queue<T>, x: T): Option<Queue<T>>
    requires q.Shaped()
  {
    if q.Full() then None else
      var wr := if q.wr == 2 * q.entries then 0 else q.wr;
      var rd := if q.rd == 2 * q.entries then 0 else q.rd;
      Some(q.(mem := q.mem[wr % q.entries := x], wr := wr + 1, rd := rd, count := q.count + 1))
  }

  function AfterPop<T>(q: Queue<T>): Option<Queue<T>> {
    if q.Empty() then None else
      var rd := (if q.rd == 2 * q.entries then 0 else q.rd) + 1;
      var wr := if rd == 2 * q.entries && q.wr == 2 * q.entries then 0 else q.wr;
      Some(q.(rd := rd, wr := wr, count := q.count - 1))
  }

  /** The entry at the local pointer; outside prologue and epilogue it then moves on. */
  function AfterGet<T>(q: Queue<T>): Option<(Queue<T>, T)>
    requires q.Shaped()
  {
    if q.Empty() then None else
      var l := if q.localRd >= 2 * q.entries then 0 else q.localRd;
      Some((q.(localRd := if q.staged then l else l + q.autoinc), q.mem[l % q.entries]))
  }

  function AfterSetLocalRd<T>(q: Queue<T>, ptr: nat): Queue<T>
    requires q.Shaped()
  {
    q.(localRd := ptr % (2 * q.entries), localRdBase := ptr % (2 * q.entries))
  }

  // ----- what a state means

  /** All of `pushed` has been pushed and `popped` of it popped again: the pointers are
      the two counts modulo twice the size, the cells hold what is outstanding. */
  ghost predicate Rep<T>(q: Queue<T>, pushed: seq<T>, popped: nat) {
    var m := 2 * q.entries;
    && q.Shaped()
    && popped <= |pushed| <= popped + q.entries
    && q.wr <= m && q.rd <= m
    && q.wr % m == |pushed| % m && q.rd % m == popped % m
    && (q.rd == 0 || q.rd == m ==> q.wr != m)
    && q.count == |pushed| - popped
    && forall i: nat :: popped <= i < |pushed| ==> i % q.entries < |q.mem| && q.mem[i % q.entries] == pushed[i]
  }

  /** The state pop leaves when both pointers reach the end together. */
  predicate WrapState<T>(q: Queue<T>) { q.rd == 2 * q.entries && q.wr == 0 }

  lemma Residue(ptr: nat, m: nat)
    requires 1 <= m && ptr <= m
    ensures ptr % m == if ptr == m then 0 else ptr
  {
    if ptr == m { DivModUnique(ptr, 1, m, 0); } else { DivModUnique(ptr, 0, m, ptr); }
  }

  /** Equal pointers modulo the double range name the same cell. */
  lemma SameCell(a: nat, b: nat, e: nat)
    requires 1 <= e && a % (2 * e) == b % (2 * e)
    ensures a % e == b % e
  {
    QueuePtr.SlotOf(a, e);
    QueuePtr.SlotOf(b, e);
  }

  /** The pointer difference is the number of outstanding entries, modulo the double range. */
  lemma PointerGap<T>(q: Queue<T>, pushed: seq<T>, popped: nat)
    requires Rep(q, pushed, popped)
    ensures var m := 2 * q.entries; var n := |pushed| - popped;
      q.wr % m == if q.rd % m + n < m then q.rd % m + n else q.rd % m + n - m
  {
    QueuePtr.ModShift(popped, |pushed| - popped, 2 * q.entries);
  }

  /** empty() is right except in the wrap state, and full() never fires while fewer
      than `entries` are outstanding. */
  lemma StatusExact<T>(q: Queue<T>, pushed: seq<T>, popped: nat)
    requires Rep(q, pushed, popped)
    ensures (q.Empty() <==> |pushed| == popped) <==> !WrapState(q)
    ensures |pushed| == popped ==> q.Empty() || WrapState(q)
    ensures |pushed| - popped < q.entries ==> !q.Full()
    ensures q.entries >= 2 ==> !q.Full()
  {
    PointerGap(q, pushed, popped);
    Residue(q.rd, 2 * q.entries);
    Residue(q.wr, 2 * q.entries);
  }

  lemma PushRep<T>(q: Queue<T>, pushed: seq<T>, popped: nat, x: T)
    requires Rep(q, pushed, popped) && |pushed| - popped < q.entries
    ensures AfterPush(q, x).Some? && Rep(AfterPush(q, x).value, pushed + [x], popped)
  {
    StatusExact(q, pushed, popped);
    var m := 2 * q.entries;
    var q' := AfterPush(q, x).value;
    PointerGap(q, pushed, popped);
    Residue(q.rd, m);
    Residue(q.wr, m);
    Residue(q'.wr, m);
    Residue(q'.rd, m);
    QueuePtr.ModShift(|pushed|, 1, m);
    var wr := q'.wr - 1;
    Residue(wr, m);
    SameCell(wr, |pushed|, q.entries);
    forall i: nat | popped <= i < |pushed|
      ensures i % q.entries != |pushed| % q.entries
    {
      QueuePtr.ModShift(i, |pushed| - i, q.entries);
    }
  }

  lemma PopRep<T>(q: Queue<T>, pushed: seq<T>, popped: nat)
    requires Rep(q, pushed, popped) && popped < |pushed|
    ensures AfterPop(q).Some? && Rep(AfterPop(q).value, pushed, popped + 1)
  {
    StatusExact(q, pushed, popped);
    var m := 2 * q.entries;
    var q' := AfterPop(q).value;
    PointerGap(q, pushed, popped);
    Residue(q.rd, m);
    Residue(q.wr, m);
    Residue(q'.wr, m);
    Residue(q'.rd, m);
    QueuePtr.ModShift(popped, 1, m);
  }

  /** Moving a pointer by i in the double range and reducing it names the same cell as
      the count moved by i. */
  lemma PeekCell(rd: nat, popped: nat, i: nat, e: nat)
    requires 1 <= e && i < 2 * e && rd % (2 * e) == popped % (2 * e)
    ensures var l := (rd % (2 * e) + i) % (2 * e); 0 <= l < 2 * e && l % e == (popped + i) % e
  {
    var m := 2 * e;
    QueuePtr.ModShift(popped, i, m);
    var ptr := rd % m + i;
    DivModUnique(ptr, if ptr < m then 0 else 1, m, if ptr < m then ptr else ptr - m);
    DivModUnique(ptr % m, 0, m, ptr % m);
    SameCell(ptr % m, popped + i, e);
  }

  /** Reading at an outstanding entry's pointer returns that entry. */
  lemma PeekAt<T>(q: Queue<T>, pushed: seq<T>, popped: nat, i: nat)
    requires Rep(q, pushed, popped) && popped + i < |pushed|
    ensures var g := AfterGet(AfterSetLocalRd(q, q.rd % (2 * q.entries) + i));
      g.Some? && g.value.1 == pushed[popped + i]
  {
    StatusExact(q, pushed, popped);
    PeekCell(q.rd, popped, i, q.entries);
  }

  // ----- the golden operations

  /** pop_output: reads at the global pointer, then pops. */
  function AfterPopOutput<T>(q: Queue<T>): Option<(Queue<T>, T)>
    requires q.Shaped()
  {
    match AfterGet(AfterSetLocalRd(q, q.rd % (2 * q.entries)))
    case None => None
    case Some((q1, x)) =>
      match AfterPop(q1)
      case None => None
      case Some(q2) => Some((q2, x))
  }

  /** get_output: reads at a given pointer and puts the local pointer back. */
  function AfterGetOutput<T>(q: Queue<T>, ptr: nat): Option<(Queue<T>, T)>
    requires q.Shaped()
  {
    match AfterGet(AfterSetLocalRd(q, ptr))
    case None => None
    case Some((q1, x)) => Some((AfterSetLocalRd(q1, q.localRd % (2 * q.entries)), x))
  }

  lemma PopOutputRep<T>(q: Queue<T>, pushed: seq<T>, popped: nat)
    requires Rep(q, pushed, popped) && popped < |pushed|
    ensures var r := AfterPopOutput(q); r.Some? && r.value.1 == pushed[popped] && Rep(r.value.0, pushed, popped + 1)
  {
    PeekAt(q, pushed, popped, 0);
    var q1 := AfterGet(AfterSetLocalRd(q, q.rd % (2 * q.entries))).value.0;
    assert Rep(q1, pushed, popped);
    PopRep(q1, pushed, popped);
  }

  lemma GetOutputRep<T>(q: Queue<T>, pushed: seq<T>, popped: nat, i: nat)
    requires Rep(q, pushed, popped) && popped + i < |pushed|
    ensures var r := AfterGetOutput(q, q.rd % (2 * q.entries) + i);
      && r.Some? && r.value.1 == pushed[popped + i]
      && r.value.0 == q.(localRd := q.localRd % (2 * q.entries), localRdBase := q.localRd % (2 * q.entries))
      && Rep(r.value.0, pushed, popped)
  {
    PeekAt(q, pushed, popped, i);
    Residue(q.localRd % (2 * q.entries), 2 * q.entries);
  }

  /** get_output leaves the queue exactly as it was if and only if the local pointer is in
      the double range and stands at its base. */
  lemma GetOutputRestoresExactly<T>(q: Queue<T>, pushed: seq<T>, popped: nat, i: nat)
    requires Rep(q, pushed, popped) && popped + i < |pushed|
    ensures AfterGetOutput(q, q.rd % (2 * q.entries) + i).Some?
    ensures AfterGetOutput(q, q.rd % (2 * q.entries) + i).value.0 == q <==>
            q.localRd < 2 * q.entries && q.localRdBase == q.localRd
  {
    GetOutputRep(q, pushed, popped, i);
    if q.localRd < 2 * q.entries {
      DivModUnique(q.localRd, 0, 2 * q.entries, q.localRd);
    }
  }

  // ----- whole runs

  datatype Op<T> = DoPush(x: T) | DoPop | DoPeek(i: nat)

  function Pushes<T>(ops: seq<Op<T>>): seq<T> {
    if ops == [] then [] else
      var last := ops[|ops| - 1];
      Pushes(ops[..|ops| - 1]) + if last.DoPush? then [last.x] else []
  }

  function Pops<T>(ops: seq<Op<T>>): nat {
    if ops == [] then 0 else Pops(ops[..|ops| - 1]) + if ops[|ops| - 1].DoPop? then 1 else 0
  }

  /** The caller's discipline, in terms of its own calls only: push while fewer than
      `entries` are outstanding, pop and peek only what is outstanding. */
  ghost predicate Disciplined<T>(entries: nat, ops: seq<Op<T>>) {
    ops != [] ==>
      var rest := ops[..|ops| - 1];
      var n := |Pushes(rest)| - Pops(rest);
      && Disciplined(entries, rest)
      && match ops[|ops| - 1]
         case DoPush(_) => n < entries
         case DoPop => 0 < n
         case DoPeek(i) => i < n
  }

  /** One operation, and what it answers: nothing, or an entry. */
  function Apply<T>(q: Queue<T>, op: Op<T>): (r: Option<(Queue<T>, Option<T>)>)
    requires q.Shaped()
    ensures r.Some? ==> r.value.0.Shaped()
  {
    match op
    case DoPush(x) => (match AfterPush(q, x) case None => None case Some(q') => Some((q', None)))
    case DoPop => (match AfterPopOutput(q) case None => None case Some((q', x)) => Some((q', Some(x))))
    case DoPeek(i) =>
      (match AfterGetOutput(q, q.rd % (2 * q.entries) + i) case None => None case Some((q', x)) => Some((q', Some(x))))
  }

  lemma ApplyRep<T>(q: Queue<T>, pushed: seq<T>, popped: nat, op: Op<T>)
    requires Rep(q, pushed, popped)
    requires match op case DoPush(_) => |pushed| - popped < q.entries
             case DoPop => popped < |pushed| case DoPeek(i) => popped + i < |pushed|
    ensures Apply(q, op).Some? && Apply(q, op).value.0.entries == q.entries
    ensures Rep(Apply(q, op).value.0, if op.DoPush? then pushed + [op.x] else pushed, if op.DoPop? then popped + 1 else popped)
    ensures Apply(q, op).value.1 ==
      match op case DoPush(_) => None case DoPop => Some(pushed[popped]) case DoPeek(i) => Some(pushed[popped + i])
  {
    match op {
      case DoPush(x) => PushRep(q, pushed, popped, x);
      case DoPop => PopOutputRep(q, pushed, popped);
      case DoPeek(i) => GetOutputRep(q, pushed, popped, i);
    }
  }

  /** The state and the answers after a run; None if some log_assert failed. */
  function Exec<T>(start: Queue<T>, ops: seq<Op<T>>): (r: Option<(Queue<T>, seq<Option<T>>)>)
    requires start.Shaped()
    ensures r.Some? ==> r.value.0.Shaped()
  {
    if ops == [] then Some((start, [])) else
      match Exec(start, ops[..|ops| - 1])
      case None => None
      case Some((q, answers)) =>
        match Apply(q, ops[|ops| - 1])
        case None => None
        case Some((q', a)) => Some((q', answers + [a]))
  }

  ghost predicate IsNew<T>(q: Queue<T>) {
    q.Shaped() && q.rd == q.wr == 0 && q.count == 0
  }

  /** What the j-th operation of a run is to answer: a pop the entry that as many pops
      were made before it, a peek the entry that many further pops would reach. */
  ghost predicate AnswerIs<T>(ops: seq<Op<T>>, j: nat, a: Option<T>)
    requires j < |ops|
  {
    if ops[j].DoPush? then a.None? else
      var at := Pops(ops[..j]) + if ops[j].DoPeek? then ops[j].i else 0;
      at < |Pushes(ops)| && a == Some(Pushes(ops)[at])
  }

  lemma AnswerStays<T>(ops: seq<Op<T>>, j: nat, a: Option<T>)
    requires j < |ops| - 1 && AnswerIs(ops[..|ops| - 1], j, a)
    ensures AnswerIs(ops, j, a)
  {
    assert ops[..|ops| - 1][..j] == ops[..j];
  }

  lemma NewRep<T>(q: Queue<T>)
    requires IsNew(q)
    ensures Rep(q, [], 0)
  {
    Residue(0, 2 * q.entries);
  }

  /** A disciplined run never fails an assertion. The k-th pop returns the k-th entry
      pushed, a peek returns the entry that many pops would reach, the counter is the
      number outstanding and the pointers agree with it. */
  lemma {:induction false} QueueIsFifo<T>(start: Queue<T>, ops: seq<Op<T>>)
    requires IsNew(start) && Disciplined(start.entries, ops)
    ensures Exec(start, ops).Some?
    ensures var (q, answers) := Exec(start, ops).value;
      && q.entries == start.entries && Rep(q, Pushes(ops), Pops(ops))
      && |answers| == |ops| && forall j :: 0 <= j < |ops| ==> AnswerIs(ops, j, answers[j])
  {
    hide Rep, Apply;
    if ops == [] {
      NewRep(start);
    } else {
      var n := |ops| - 1;
      QueueIsFifo(start, ops[..n]);
      var (q, answers) := Exec(start, ops[..n]).value;
      ApplyRep(q, Pushes(ops[..n]), Pops(ops[..n]), ops[n]);
      forall j | 0 <= j < n
        ensures AnswerIs(ops, j, answers[j])
      {
        AnswerStays(ops, j, answers[j]);
      }
      assert Pushes(ops[..n]) + [] == Pushes(ops[..n]);
      LastAnswer(ops, Apply(q, ops[n]).value.1);
    }
  }

  lemma LastAnswer<T>(ops: seq<Op<T>>, a: Option<T>)
    requires ops != []
    requires var rest := ops[..|ops| - 1]; var at := Pops(rest);
      match ops[|ops| - 1]
      case DoPush(_) => a.None?
      case DoPop => at < |Pushes(rest)| && a == Some(Pushes(rest)[at])
      case DoPeek(i) => at + i < |Pushes(rest)| && a == Some(Pushes(rest)[at + i])
    ensures AnswerIs(ops, |ops| - 1, a)
  {}

  // ----- outside the discipline

  /** Once `entries` are outstanding a push overwrites the oldest outstanding entry, and the
      next pop returns the new one. For a queue with a single entry that is so when the
      read pointer stands at 0. With the pointers at (1, 2) the push is accepted too, but
      empty() then holds with two entries outstanding, and none can be popped. Only with
      the write pointer just behind the read pointer, which no run of the queue reaches,
      does full() stop the push. */
  lemma PushWhenFullOverwrites<T>(q: Queue<T>, pushed: seq<T>, popped: nat, x: T)
    requires Rep(q, pushed, popped) && |pushed| - popped == q.entries
    ensures q.entries >= 2 || q.rd == 0 ==>
      && AfterPush(q, x).Some?
      && AfterPopOutput(AfterPush(q, x).value).Some? && AfterPopOutput(AfterPush(q, x).value).value.1 == x
    ensures q.entries == 1 && q.rd == 1 && q.wr == 2 ==>
      && AfterPush(q, x).Some? && AfterPush(q, x).value.Empty() && AfterPush(q, x).value.count == 2
      && AfterPopOutput(AfterPush(q, x).value).None?
    ensures AfterPush(q, x).None? <==> q.entries == 1 && q.rd == q.wr + 1
  {
    var m := 2 * q.entries;
    StatusExact(q, pushed, popped);
    PointerGap(q, pushed, popped);
    Residue(q.rd, m);
    Residue(q.wr, m);
    if q.entries >= 2 || q.rd == 0 {
      var q' := AfterPush(q, x).value;
      Residue(q'.rd, m);
      var wr := q'.wr - 1;
      Residue(wr, m);
      Opposite(wr, q'.rd % m, q.entries);
      assert q'.mem[wr % q.entries] == x;
      Residue(q'.rd % m, m);
    }
  }

  lemma Opposite(a: nat, b: nat, e: nat)
    requires 1 <= e && a < 2 * e && b < 2 * e && (a == b + e || b == a + e)
    ensures a % e == b % e
  {
    if a == b + e { DivModUnique(a, 1, e, b); DivModUnique(b, 0, e, b); }
    else { DivModUnique(b, 1, e, a); DivModUnique(a, 0, e, a); }
  }

  /** A push is accepted and keeps the oldest outstanding entry next in line exactly when
      fewer than `entries` are outstanding, for queues of every size. */
  lemma PushKeepsOldestExactly<T>(q: Queue<T>, pushed: seq<T>, popped: nat, x: T)
    requires Rep(q, pushed, popped) && popped < |pushed| && x != pushed[popped]
    ensures (&& AfterPush(q, x).Some? && AfterPopOutput(AfterPush(q, x).value).Some?
             && AfterPopOutput(AfterPush(q, x).value).value.1 == pushed[popped])
            <==> |pushed| - popped < q.entries
  {
    if |pushed| - popped < q.entries {
      PushRep(q, pushed, popped, x);
      PopOutputRep(AfterPush(q, x).value, pushed + [x], popped);
    } else {
      PushWhenFullOverwrites(q, pushed, popped, x);
      SinglePointers(q, pushed, popped);
    }
  }

  /** Where the pointers of a queue with a single entry stand when that entry is taken. */
  lemma SinglePointers<T>(q: Queue<T>, pushed: seq<T>, popped: nat)
    requires Rep(q, pushed, popped) && |pushed| - popped == q.entries
    ensures q.entries == 1 ==> (q.rd, q.wr) in {(0, 1), (1, 2), (1, 0), (2, 1)}
    ensures q.entries == 1 ==> q.rd % 2 == popped % 2
  {
    if q.entries == 1 {
      PointerGap(q, pushed, popped);
      Residue(q.rd, 2);
      Residue(q.wr, 2);
    }
  }

  /** Popping a queue with nothing outstanding fails exactly outside the wrap state; in
      the wrap state it is accepted and the counter goes below zero. */
  lemma PopWhenEmptyExact<T>(q: Queue<T>, pushed: seq<T>)
    requires Rep(q, pushed, |pushed|)
    ensures AfterPopOutput(q).None? <==> !WrapState(q)
    ensures WrapState(q) ==> AfterPopOutput(q).Some? && AfterPopOutput(q).value.0.count == -1
  {
    StatusExact(q, pushed, |pushed|);
  }

  /** k times: push an entry and pop it. */
  function Pairs<T>(x: T, k: nat): (ops: seq<Op<T>>)
    ensures |ops| == 2 * k
  {
    if k == 0 then [] else Pairs(x, k - 1) + [DoPush(x), DoPop]
  }

  lemma {:induction false} PairsDisciplined<T>(entries: nat, x: T, k: nat)
    requires 1 <= entries
    ensures Disciplined(entries, Pairs(x, k)) && |Pushes(Pairs(x, k))| == Pops(Pairs(x, k)) == k
  {
    if k > 0 {
      PairsSplit(x, k);
      PairsDisciplined(entries, x, k - 1);
    }
  }

  lemma PairsSplit<T>(x: T, k: nat)
    requires k > 0
    ensures Pairs(x, k)[2 * k - 1] == DoPop
    ensures Pairs(x, k)[..2 * k - 1] == Pairs(x, k - 1) + [DoPush(x)]
    ensures Pairs(x, k)[..2 * k - 1][..2 * k - 2] == Pairs(x, k - 1)
  {}

  /** The wrap state is reached by ordinary disciplined runs, for every queue size:
      push and pop one entry until the double range has been run through once. */
  lemma {:induction false} WrapStateReached<T>(q: Queue<T>, x: T, k: nat)
    requires IsNew(q) && k <= 2 * q.entries
    ensures Disciplined(q.entries, Pairs(x, k)) && Exec(q, Pairs(x, k)).Some?
    ensures var p := Exec(q, Pairs(x, k)).value.0;
      p.entries == q.entries && if k < 2 * q.entries then p.rd == p.wr == k else WrapState(p)
  {
    hide AfterPush, AfterPopOutput, Pairs, Disciplined;
    PairsDisciplined(q.entries, x, k);
    if k == 0 {
      NoPairs(x);
    } else {
      WrapStateReached(q, x, k - 1);
      PairsSplit(x, k);
      PairStep(Exec(q, Pairs(x, k - 1)).value.0, x);
    }
  }

  lemma NoPairs<T>(x: T)
    ensures Pairs(x, 0) == []
  {}

  lemma PairStep<T>(p: Queue<T>, x: T)
    requires p.Shaped() && p.rd == p.wr < 2 * p.entries
    ensures AfterPush(p, x).Some? && AfterPopOutput(AfterPush(p, x).value).Some?
    ensures var r := AfterPopOutput(AfterPush(p, x).value).value.0;
      r.entries == p.entries && if p.rd + 1 < 2 * p.entries then r.rd == r.wr == p.rd + 1 else WrapState(r)
  {}

  // ----- the same by what has been done to the queue

  /** What Rep leaves open about the states that runs reach: where the pointers stand at
      the two ends of their range. */
  ghost predicate Reached<T>(q: Queue<T>, pushed: seq<T>, popped: nat) {
    && Rep(q, pushed, popped)
    && (q.rd == 2 * q.entries ==> 0 < popped && |pushed| - popped < q.entries)
    && (q.wr == 0 ==> |pushed| == popped)
    && (|pushed| == popped && popped > 0 ==> q.rd > 0)
  }

  lemma PushReached<T>(q: Queue<T>, pushed: seq<T>, popped: nat, x: T)
    requires Reached(q, pushed, popped) && |pushed| - popped < q.entries
    ensures AfterPush(q, x).Some? && Reached(AfterPush(q, x).value, pushed + [x], popped)
  {
    PushRep(q, pushed, popped, x);
  }

  lemma PopReached<T>(q: Queue<T>, pushed: seq<T>, popped: nat)
    requires Reached(q, pushed, popped) && popped < |pushed|
    ensures AfterPop(q).Some? && Reached(AfterPop(q).value, pushed, popped + 1)
  {
    PopRep(q, pushed, popped);
    var q' := AfterPop(q).value;
    PointerGap(q', pushed, popped + 1);
    Residue(q'.rd, 2 * q.entries);
    Residue(q'.wr, 2 * q.entries);
  }

  lemma ApplyReached<T>(q: Queue<T>, pushed: seq<T>, popped: nat, op: Op<T>)
    requires Reached(q, pushed, popped)
    requires match op case DoPush(_) => |pushed| - popped < q.entries
             case DoPop => popped < |pushed| case DoPeek(i) => popped + i < |pushed|
    ensures Apply(q, op).Some? && Apply(q, op).value.0.entries == q.entries
    ensures Reached(Apply(q, op).value.0, if op.DoPush? then pushed + [op.x] else pushed, if op.DoPop? then popped + 1 else popped)
  {
    ApplyRep(q, pushed, popped, op);
    match op {
      case DoPush(x) => PushReached(q, pushed, popped, x);
      case DoPop =>
        PeekAt(q, pushed, popped, 0);
        var q1 := AfterGet(AfterSetLocalRd(q, q.rd % (2 * q.entries))).value.0;
        PopReached(q1, pushed, popped);
      case DoPeek(i) => GetOutputRep(q, pushed, popped, i);
    }
  }

  lemma {:induction false} RunReached<T>(start: Queue<T>, ops: seq<Op<T>>)
    requires IsNew(start) && Disciplined(start.entries, ops)
    ensures Exec(start, ops).Some? && Exec(start, ops).value.0.entries == start.entries
    ensures Reached(Exec(start, ops).value.0, Pushes(ops), Pops(ops))
  {
    hide Reached, Rep, Apply;
    if ops == [] {
      NewReached(start);
    } else {
      var n := |ops| - 1;
      RunReached(start, ops[..n]);
      ApplyReached(Exec(start, ops[..n]).value.0, Pushes(ops[..n]), Pops(ops[..n]), ops[n]);
      assert Pushes(ops[..n]) + [] == Pushes(ops[..n]);
    }
  }

  lemma NewReached<T>(q: Queue<T>)
    requires IsNew(q)
    ensures Reached(q, [], 0)
  {
    NewRep(q);
  }

  /** After a disciplined run empty() is wrong exactly when nothing is outstanding and the
      number of entries ever pushed is a positive multiple of 2 * entries; a pop is then
      accepted, and otherwise fails when nothing is outstanding. */
  lemma EmptyByHistory<T>(start: Queue<T>, ops: seq<Op<T>>)
    requires IsNew(start) && Disciplined(start.entries, ops)
    ensures Exec(start, ops).Some?
    ensures var q := Exec(start, ops).value.0; var n := |Pushes(ops)|;
      && ((q.Empty() <==> n == Pops(ops)) <==> !(n == Pops(ops) && n > 0 && n % (2 * start.entries) == 0))
      && (n == Pops(ops) ==> (AfterPopOutput(q).Some? <==> n > 0 && n % (2 * start.entries) == 0))
  {
    RunReached(start, ops);
    var q, n := Exec(start, ops).value.0, |Pushes(ops)|;
    StatusExact(q, Pushes(ops), Pops(ops));
    Residue(q.rd, 2 * q.entries);
    Residue(q.wr, 2 * q.entries);
    if n == Pops(ops) {
      PopWhenEmptyExact(q, Pushes(ops));
    }
  }

  /** After a disciplined run that leaves `entries` outstanding a push is always accepted.
      The next pop returns the new entry, unless the queue has a single entry and an odd
      number of pops have been made: then both entries are lost from view. */
  lemma PushWhenFullByHistory<T>(start: Queue<T>, ops: seq<Op<T>>, x: T)
    requires IsNew(start) && Disciplined(start.entries, ops) && |Pushes(ops)| - Pops(ops) == start.entries
    ensures Exec(start, ops).Some?
    ensures var q := Exec(start, ops).value.0;
      && AfterPush(q, x).Some?
      && var p := AfterPush(q, x).value;
         if start.entries == 1 && Pops(ops) % 2 == 1 then p.Empty() && p.count == 2 && AfterPopOutput(p).None?
         else AfterPopOutput(p).Some? && AfterPopOutput(p).value.1 == x
  {
    RunReached(start, ops);
    hide *;
    FullReached(Exec(start, ops).value.0, Pushes(ops), Pops(ops), x);
  }

  lemma FullReached<T>(q: Queue<T>, pushed: seq<T>, popped: nat, x: T)
    requires Reached(q, pushed, popped) && |pushed| - popped == q.entries
    ensures AfterPush(q, x).Some?
    ensures var p := AfterPush(q, x).value;
      if q.entries == 1 && popped % 2 == 1 then p.Empty() && p.count == 2 && AfterPopOutput(p).None?
      else AfterPopOutput(p).Some? && AfterPopOutput(p).value.1 == x
  {
    hide AfterPush, AfterPopOutput;
    PushWhenFullOverwrites(q, pushed, popped, x);
    SinglePointers(q, pushed, popped);
  }

  /** Ordinary use leads to a state that get_output does not restore: two pushes and a
      pop_output on a queue whose local pointer moves on by itself leave that pointer off
      its base. */
  lemma GetOutputCanDisturb<T>(q: Queue<T>, x: T, y: T)
    requires IsNew(q) && q.entries >= 2 && q.autoinc == 1 && !q.staged
    ensures var ops := [DoPush(x), DoPush(y), DoPop];
      && Disciplined(q.entries, ops) && Exec(q, ops).Some?
      && var p := Exec(q, ops).value.0;
         AfterGetOutput(p, p.rd % (2 * p.entries)).Some? && AfterGetOutput(p, p.rd % (2 * p.entries)).value.0 != p
  {
    var ops: seq<Op<T>> := [DoPush(x), DoPush(y), DoPop];
    TwoPushesAndPop(q.entries, x, y);
    QueueIsFifo(q, ops);
    PointerOffBase(q, x, y);
    ExecTwoPushesAndPop(q, x, y);
    hide *;
    GetOutputRestoresExactly(Exec(q, ops).value.0, Pushes(ops), Pops(ops), 0);
  }

  lemma TwoPushesAndPop<T>(entries: nat, x: T, y: T)
    requires entries >= 2
    ensures var ops := [DoPush(x), DoPush(y), DoPop];
      Disciplined(entries, ops) && |Pushes(ops)| == 2 && Pops(ops) == 1
  {
    var ops: seq<Op<T>> := [DoPush(x), DoPush(y), DoPop];
    assert ops[..2] == [DoPush(x), DoPush(y)] && ops[..2][..1] == [DoPush(x)] && ops[..2][..1][..0] == [];
    assert Disciplined(entries, [DoPush(x)]) && Pushes([DoPush(x)]) == [x] && Pops([DoPush(x)]) == 0;
    assert Disciplined(entries, [DoPush(x), DoPush(y)]) && |Pushes([DoPush(x), DoPush(y)])| == 2;
  }

  lemma ExecTwoPushesAndPop<T>(q: Queue<T>, x: T, y: T)
    requires q.Shaped() && AfterPush(q, x).Some? && AfterPush(AfterPush(q, x).value, y).Some?
    requires AfterPopOutput(AfterPush(AfterPush(q, x).value, y).value).Some?
    ensures var r := Exec(q, [DoPush(x), DoPush(y), DoPop]);
      r.Some? && r.value.0 == AfterPopOutput(AfterPush(AfterPush(q, x).value, y).value).value.0
  {
    hide AfterPush, AfterPopOutput;
    var ops: seq<Op<T>> := [DoPush(x), DoPush(y), DoPop];
    assert ops[..2] == [DoPush(x), DoPush(y)] && ops[..2][..1] == [DoPush(x)] && ops[..2][..1][..0] == [];
    assert Exec(q, [DoPush(x)]).Some? && Exec(q, [DoPush(x)]).value.0 == AfterPush(q, x).value;
    assert Exec(q, ops[..2]).Some?;
  }

  lemma PointerOffBase<T>(q: Queue<T>, x: T, y: T)
    requires IsNew(q) && q.entries >= 2 && q.autoinc == 1 && !q.staged
    ensures AfterPush(q, x).Some? && AfterPush(AfterPush(q, x).value, y).Some?
    ensures var r := AfterPopOutput(AfterPush(AfterPush(q, x).value, y).value);
      r.Some? && r.value.0.localRd == 1 && r.value.0.localRdBase == 0
  {
    var q1 := AfterPush(q, x).value;
    var q2 := AfterPush(q1, y).value;
    assert q2.rd == 0 && q2.wr == 2 && q2.entries == q.entries && q2.autoinc == 1 && !q2.staged;
    hide AfterPush;
    PopMovesLocal(q2);
  }

  lemma PopMovesLocal<T>(q: Queue<T>)
    requires q.Shaped() && q.rd == 0 && q.wr == 2 && q.entries >= 2 && q.autoinc == 1 && !q.staged
    ensures AfterPopOutput(q).Some?
    ensures AfterPopOutput(q).value.0.localRd == 1 && AfterPopOutput(q).value.0.localRdBase == 0
  {
    Residue(0, 2 * q.entries);
  }

  // ----- the object

  class TtQueue<T> {
    var entries: nat
    var memory: array<T>
    var globalRd: nat
    var globalWr: nat
    var numCurrentEntries: int
    var localRd: nat
    var localRdBase: nat
    var rdPtrAutoinc: nat
    var staged: bool   // prolog or epilog

    ghost function State(): Queue<T>
      reads this, memory
    {
      Queue(entries, memory[..], globalRd, globalWr, numCurrentEntries, localRd, localRdBase, rdPtrAutoinc, staged)
    }

    ghost predicate Shaped()
      reads this
    {
      1 <= entries == memory.Length
    }

    /** The cells start out holding some placeholder entry each. */
    constructor (entries: nat, blank: T)
      requires 1 <= entries
      ensures fresh(memory) && Shaped() && this.entries == entries && IsNew(State())
    {
      this.entries := entries;
      memory := new T[entries](_ => blank);
      globalRd, globalWr, numCurrentEntries, localRd, localRdBase := 0, 0, 0, 0, 0;
      rdPtrAutoinc, staged := 1, false;
    }

    predicate Full()
      reads this
    {
      (globalRd == 0 && globalWr == 2 * entries) || globalRd == globalWr + 1
    }

    predicate Empty()
      reads this
    {
      globalRd == globalWr
    }

    /** Pushes an entry; false if the assertion fails. */
    method Push(x: T) returns (ok: bool)
      requires Shaped()
      modifies this, memory
      ensures Shaped() && memory == old(memory)
      ensures match AfterPush(old(State()), x)
        case None => !ok && State() == old(State())
        case Some(q) => ok && State() == q
      ensures !ok <==> old((globalRd == 0 && globalWr == 2 * entries) || globalRd == globalWr + 1)
      ensures ok ==>
        && memory[..] == old(memory[..])[(if old(globalWr) == 2 * entries then 0 else old(globalWr)) % entries := x]
        && globalWr == (if old(globalWr == 2 * entries) then 1 else old(globalWr) + 1)
        && globalRd == (if old(globalRd == 2 * entries) then 0 else old(globalRd))
        && numCurrentEntries == old(numCurrentEntries) + 1
    {
      if Full() {
        return false;
      }
      if globalWr == 2 * entries {
        globalWr := 0;
      }
      if globalRd == 2 * entries {
        globalRd := 0;
      }
      memory[globalWr % entries] := x;
      globalWr := globalWr + 1;
      numCurrentEntries := numCurrentEntries + 1;
      return true;
    }

    method Pop() returns (ok: bool)
      requires Shaped()
      modifies this
      ensures Shaped() && memory == old(memory)
      ensures match AfterPop(old(State()))
        case None => !ok && State() == old(State())
        case Some(q) => ok && State() == q
      ensures !ok <==> old(globalRd == globalWr)
      ensures ok ==>
        && globalRd == (if old(globalRd == 2 * entries) then 1 else old(globalRd) + 1)
        && globalWr == (if globalRd == 2 * entries && old(globalWr) == 2 * entries then 0 else old(globalWr))
        && numCurrentEntries == old(numCurrentEntries) - 1
    {
      if Empty() {
        return false;
      }
      if globalRd == 2 * entries {
        globalRd := 0;
      }
      globalRd := globalRd + 1;
      if globalRd == 2 * entries && globalWr == 2 * entries {
        globalWr := 0;
      }
      numCurrentEntries := numCurrentEntries - 1;
      return true;
    }

    method Get() returns (r: Option<T>)
      requires Shaped()
      modifies this`localRd
      ensures Shaped() && memory == old(memory)
      ensures match AfterGet(old(State()))
        case None => r.None? && State() == old(State())
        case Some((q, x)) => r == Some(x) && State() == q
      ensures r.None? <==> globalRd == globalWr
      ensures r.Some? ==> var l := if old(localRd) >= 2 * entries then 0 else old(localRd);
        r.value == memory[l % entries] && localRd == if staged then l else l + rdPtrAutoinc
    {
      if Empty() {
        return None;
      }
      if localRd >= 2 * entries {
        localRd := 0;
      }
      var result := memory[localRd % entries];
      if !staged {
        localRd := localRd + rdPtrAutoinc;
      }
      return Some(result);
    }

    method SetLocalRdPtr(ptr: nat)
      requires Shaped()
      modifies this`localRd, this`localRdBase
      ensures Shaped() && State() == AfterSetLocalRd(old(State()), ptr)
      ensures localRd == localRdBase == ptr % (2 * entries)
    {
      localRd := ptr % (2 * entries);
      localRdBase := ptr % (2 * entries);
    }

    /** pop_output of golden/golden_io.cpp: the oldest outstanding entry comes out. */
    method PopOutput(ghost pushed: seq<T>, ghost popped: nat) returns (x: T)
      requires Rep(State(), pushed, popped) && popped < |pushed|
      modifies this
      ensures memory == old(memory) && x == pushed[popped]
      ensures Rep(State(), pushed, popped + 1)
    {
      PopOutputRep(State(), pushed, popped);
      SetLocalRdPtr(globalRd % (2 * entries));
      var r := Get();
      var ok := Pop();
      return r.value;
    }

    /** get_output of golden/golden_io.cpp, for a pointer i entries past the oldest. */
    method GetOutput(i: nat, ghost pushed: seq<T>, ghost popped: nat) returns (x: T)
      requires Rep(State(), pushed, popped) && popped + i < |pushed|
      modifies this`localRd, this`localRdBase
      ensures memory == old(memory) && x == pushed[popped + i]
      ensures State() == old(State()).(localRd := old(localRd) % (2 * entries), localRdBase := old(localRd) % (2 * entries))
      ensures Rep(State(), pushed, popped)
    {
      GetOutputRep(State(), pushed, popped, i);
      var saved := localRd % (2 * entries);
      SetLocalRdPtr(globalRd % (2 * entries) + i);
      var r := Get();
      SetLocalRdPtr(saved);
      return r.value;
    }

    /** The batching loop of pop_output. */
    method PopOutputs(n: nat, ghost pushed: seq<T>, ghost popped: nat) returns (xs: seq<T>)
      requires Rep(State(), pushed, popped) && popped + n <= |pushed|
      modifies this
      ensures memory == old(memory) && Rep(State(), pushed, popped + n)
      ensures xs == pushed[popped..popped + n]
    {
      xs := [];
      for i := 0 to n
        invariant memory == old(memory) && Rep(State(), pushed, popped + i)
        invariant xs == pushed[popped..popped + i]
      {
        var x := PopOutput(pushed, popped + i);
        xs := xs + [x];
      }
    }

    /** The batching loop of get_output: it collects exactly what as many pops would
        return, across the wrap of the pointers, and leaves entries, global pointers and
        count alone. The local pointer comes back reduced to the double range; its base
        is set to the same value. */
    method GetOutputs(n: nat, ghost pushed: seq<T>, ghost popped: nat) returns (xs: seq<T>)
      requires Rep(State(), pushed, popped) && popped + n <= |pushed|
      modifies this`localRd, this`localRdBase
      ensures memory == old(memory) && Rep(State(), pushed, popped)
      ensures xs == pushed[popped..popped + n]
      ensures n > 0 ==> State() == old(State()).(localRd := old(localRd) % (2 * entries), localRdBase := old(localRd) % (2 * entries))
      ensures n == 0 ==> State() == old(State())
    {
      xs := [];
      for i := 0 to n
        invariant memory == old(memory) && Rep(State(), pushed, popped)
        invariant xs == pushed[popped..popped + i]
        invariant i > 0 ==> State() == old(State()).(localRd := old(localRd) % (2 * entries), localRdBase := old(localRd) % (2 * entries))
        invariant i == 0 ==> State() == old(State())
      {
        Residue(old(localRd) % (2 * entries), 2 * entries);
        var x := GetOutput(i, pushed, popped);
        xs := xs + [x];
      }
    }
  }
}
