/** Ring pointers that run over twice the number of slots: tt_queue_ptr
    (common/tt_queue_ptr.cpp), tt_bufq_ptr (common/base.cpp) and the occupancy
    formula of the debugger (dbd/tt_graph.py). */
module QueuePtr {
  import opened Basics
  import opened MixedRadix

  const U16 := 0x1_0000

  // ----- the queries and increments, in the widths of the code

  /** A pointer moved by amount: the sum in uint32_t, the result stored in uint16_t. */
  function Incr(ptr: nat, amount: nat, limit: nat): nat
    requires 1 <= limit
  {
    ((ptr + amount) % U32) % limit % U16
  }

  function Occupancy(rd: nat, wr: nat, limit: nat): int {
    if wr >= rd then wr - rd else (limit + wr - rd) % U32
  }

  function FreeSpace(rd: nat, wr: nat, slots: nat, limit: nat): int {
    (slots - Occupancy(rd, wr, limit)) % U32
  }

  function Full(rd: nat, wr: nat, slots: nat): bool {
    rd != wr && if wr > rd then (wr - slots) % U32 == rd else (rd - slots) % U32 == wr
  }

  function EmptyDuringBatchedRead(rd: nat, wr: nat, limit: nat, amount: nat): bool {
    if wr > rd then (rd + amount) % U32 > wr else (rd + amount) % U32 > (limit + wr) % U32
  }

  /** A pointer brought into the range of the buffer. */
  function InRange(ptr: nat, slots: nat): nat {
    if ptr >= slots then ptr - slots else ptr
  }

  // ----- what the pointers stand for

  /** The pointers encode p pushes and q pops on a queue of the given size, the double of
      which fits in 32 bits. */
  ghost predicate Encodes(rd: nat, wr: nat, slots: nat, p: nat, q: nat) {
    && 1 <= slots < U32 / 2
    && q <= p <= q + slots
    && wr == p % (2 * slots) && rd == q % (2 * slots)
  }

  lemma ModShift(a: nat, k: nat, m: nat)
    requires 1 <= m && k <= m
    ensures (a + k) % m == if a % m + k < m then a % m + k else a % m + k - m
  {
    var q, r := a / m, a % m;
    assert a == q * m + r;
    Distribute(q, 1, m);
    if r + k < m {
      DivModUnique(a + k, q, m, r + k);
    } else {
      DivModUnique(a + k, q + 1, m, r + k - m);
    }
  }

  /** Half of the double range: which half a pointer is in does not matter for the
      slot it names. */
  lemma SlotOf(p: nat, slots: nat)
    requires 1 <= slots
    ensures InRange(p % (2 * slots), slots) == p % slots
  {
    var m := 2 * slots;
    var q, r := p / m, p % m;
    assert p == q * m + r;
    Associate(q, 2, slots);
    if r < slots {
      DivModUnique(p, 2 * q, slots, r);
    } else {
      DivModUnique(p, 2 * q + 1, slots, r - slots);
    }
  }

  /** In every state the discipline allows, the queries compute what they are named for. */
  lemma QueriesExact(rd: nat, wr: nat, slots: nat, p: nat, q: nat)
    requires Encodes(rd, wr, slots, p, q)
    ensures Occupancy(rd, wr, 2 * slots) == p - q
    ensures FreeSpace(rd, wr, slots, 2 * slots) == slots - (p - q)
    ensures Full(rd, wr, slots) <==> p - q == slots
    ensures rd == wr <==> p == q
  {
    ModShift(q, p - q, 2 * slots);
    var n := p - q;
    assert wr == if rd + n < 2 * slots then rd + n else rd + n - 2 * slots;
    Small(Occupancy(rd, wr, 2 * slots));
    Small(slots - n);
    if wr < rd { Small(2 * slots + wr - rd); }
    FullExact(rd, wr, slots, n);
  }

  lemma Small(a: int)
    requires 0 <= a < U32
    ensures a % U32 == a
  {}

  lemma FullExact(rd: nat, wr: nat, slots: nat, n: nat)
    requires 1 <= slots < U32 / 2 && n <= slots && rd < 2 * slots
    requires wr == if rd + n < 2 * slots then rd + n else rd + n - 2 * slots
    ensures Full(rd, wr, slots) <==> n == slots
  {
    if wr > rd {
      if wr >= slots { Small(wr - slots); } else { DivModUnique(wr - slots, -1, U32, wr - slots + U32); }
    } else if wr < rd {
      if rd >= slots { Small(rd - slots); } else { DivModUnique(rd - slots, -1, U32, rd - slots + U32); }
    }
  }

  /** The batched-read test means "more than is there" exactly unless the queue is
      empty (where it lets every amount up to the double range pass) or the sum of
      pointer and amount wraps in 32 bits. */
  lemma BatchedReadExact(rd: nat, wr: nat, slots: nat, p: nat, q: nat, amount: nat)
    requires Encodes(rd, wr, slots, p, q) && slots <= U16 / 2 && amount < U32
    ensures (EmptyDuringBatchedRead(rd, wr, 2 * slots, amount) <==> amount > p - q)
            <==> !(p == q && 1 <= amount <= 2 * slots) && rd + amount < U32
  {
    ModShift(q, p - q, 2 * slots);
    Small(2 * slots + wr);
    if rd + amount < U32 {
      Small(rd + amount);
    } else {
      DivModUnique(rd + amount, 1, U32, rd + amount - U32);
    }
  }

  lemma PushKeeps(rd: nat, wr: nat, slots: nat, p: nat, q: nat, n: nat)
    requires Encodes(rd, wr, slots, p, q) && slots <= U16 / 2 && n <= FreeSpace(rd, wr, slots, 2 * slots)
    ensures Encodes(rd, Incr(wr, n, 2 * slots), slots, p + n, q)
  {
    QueriesExact(rd, wr, slots, p, q);
    IncrIsShift(p, n, slots);
  }

  lemma PopKeeps(rd: nat, wr: nat, slots: nat, p: nat, q: nat, n: nat)
    requires Encodes(rd, wr, slots, p, q) && slots <= U16 / 2 && n <= Occupancy(rd, wr, 2 * slots)
    ensures Encodes(Incr(rd, n, 2 * slots), wr, slots, p, q + n)
  {
    QueriesExact(rd, wr, slots, p, q);
    IncrIsShift(q, n, slots);
  }

  lemma IncrIsShift(p: nat, n: nat, slots: nat)
    requires 1 <= slots <= U16 / 2 && n <= slots
    ensures Incr(p % (2 * slots), n, 2 * slots) == (p + n) % (2 * slots)
  {
    var m := 2 * slots;
    ModShift(p, n, m);
    var a := p % m + n;
    Small(a);
    if a < m { DivModUnique(a, 0, m, a); } else { DivModUnique(a, 1, m, a - m); }
    DivModUnique(a % m, 0, U16, a % m);
  }

  // ----- runs

  datatype Move = Push(n: nat) | Pop(n: nat)

  /** Pointer state after a list of moves, and the number of pushes and pops. */
  datatype State = State(rd: nat, wr: nat, pushes: nat, pops: nat)

  /** Each move stays within what the queue really holds, or has room for. */
  ghost predicate Disciplined(slots: nat, moves: seq<Move>, s: State)
    requires 1 <= slots
    decreases |moves|
  {
    if moves == [] then s == State(0, 0, 0, 0) else
      var k := |moves| - 1;
      exists t :: Disciplined(slots, moves[..k], t) && MoveStep(slots, moves[k], t, s)
  }

  ghost predicate MoveStep(slots: nat, move: Move, t: State, s: State)
    requires 1 <= slots
  {
    match move
    case Push(n) =>
      (t.pushes + n - t.pops <= slots && s == State(t.rd, Incr(t.wr, n, 2 * slots), t.pushes + n, t.pops))
    case Pop(n) =>
      (t.pops + n <= t.pushes && s == State(Incr(t.rd, n, 2 * slots), t.wr, t.pushes, t.pops + n))
  }

  lemma {:induction false} RunsEncode(slots: nat, moves: seq<Move>, s: State)
    requires 1 <= slots <= U16 / 2 && Disciplined(slots, moves, s)
    ensures Encodes(s.rd, s.wr, slots, s.pushes, s.pops)
    decreases |moves|
  {
    if moves == [] {
      DivModUnique(0, 0, 2 * slots, 0);
    } else {
      var k := |moves| - 1;
      var t: State :| Disciplined(slots, moves[..k], t) && MoveStep(slots, moves[k], t, s);
      RunsEncode(slots, moves[..k], t);
      QueriesExact(t.rd, t.wr, slots, t.pushes, t.pops);
      match moves[k]
      case Push(n) => PushKeeps(t.rd, t.wr, slots, t.pushes, t.pops, n);
      case Pop(n) => PopKeeps(t.rd, t.wr, slots, t.pushes, t.pops, n);
    }
  }

  /** occupancy() is right after every disciplined run. */
  ghost predicate AlwaysExact(slots: nat)
    requires 1 <= slots
  {
    forall moves, s :: Disciplined(slots, moves, s) ==> Occupancy(s.rd, s.wr, 2 * slots) == s.pushes - s.pops
  }

  /** The 16-bit pointers are wide enough exactly for queues of up to 32768 slots. */
  lemma PointerWidthExact(slots: nat)
    requires 1 <= slots < U32 / 2
    ensures AlwaysExact(slots) <==> slots <= 32768
  {
    if slots <= 32768 {
      forall moves, s | Disciplined(slots, moves, s)
        ensures Occupancy(s.rd, s.wr, 2 * slots) == s.pushes - s.pops
      {
        RunsEncode(slots, moves, s);
        QueriesExact(s.rd, s.wr, slots, s.pushes, s.pops);
      }
    } else {
      var moves, s := WideQueueFails(slots);
    }
  }

  /** Beyond that, a pointer that reaches 65536 is cut to 0. */
  lemma WideQueueFails(slots: nat) returns (moves: seq<Move>, s: State)
    requires 32768 < slots < U32 / 2
    ensures Disciplined(slots, moves, s) && Occupancy(s.rd, s.wr, 2 * slots) != s.pushes - s.pops
  {
    var m := 2 * slots;
    assert Disciplined(slots, [], State(0, 0, 0, 0));
    if slots >= U16 {
      moves, s := [Push(U16)], State(0, 0, U16, 0);
      CutTo(0, U16, m, 0);
      assert moves[..0] == [];
    } else {
      var n := U16 - slots;
      var s1 := State(0, slots, slots, 0);
      var s2 := State(slots, slots, slots, slots);
      CutTo(0, slots, m, slots);
      CutTo(slots, n, m, 0);
      moves, s := [Push(slots), Pop(slots), Push(n)], State(slots, 0, slots + n, slots);
      assert moves[..2] == [Push(slots), Pop(slots)];
      assert moves[..2][..1] == [Push(slots)];
      assert moves[..2][..1][..0] == [];
      assert Disciplined(slots, [Push(slots)], s1);
      assert Disciplined(slots, [Push(slots), Pop(slots)], s2);
      Small(m - slots);
    }
  }

  lemma CutTo(ptr: nat, n: nat, m: nat, r: nat)
    requires ptr + n < m < U32 && r < U16 && (ptr + n == r || ptr + n == r + U16)
    ensures Incr(ptr, n, m) == r
  {
    Small(ptr + n);
    DivModUnique(ptr + n, 0, m, ptr + n);
    DivModUnique(ptr + n, if ptr + n == r then 0 else 1, U16, r);
  }

  // ----- tt_bufq_ptr and the debugger agree with tt_queue_ptr

  function BufqIncr(ptr: nat, slots: nat): nat {
    if ptr + 1 == 2 * slots then 0 else ptr + 1
  }

  function DebuggerOccupancy(entries: nat, wr: nat, rd: nat): int {
    if wr >= rd then wr - rd else wr - (rd - 2 * entries)
  }

  /** The 32-bit pointers of tt_bufq_ptr need no bound but their own width. */
  lemma BufqIncrIsShift(p: nat, slots: nat)
    requires 1 <= slots
    ensures BufqIncr(p % (2 * slots), slots) == (p + 1) % (2 * slots)
  {
    ModShift(p, 1, 2 * slots);
  }

  /** On pointers in the double range, one step of tt_bufq_ptr is one step of
      tt_queue_ptr, and the debugger computes the same occupancy. */
  lemma SameRing(rd: nat, wr: nat, slots: nat)
    requires 1 <= slots <= U16 / 2 && rd < 2 * slots && wr < 2 * slots
    ensures BufqIncr(wr, slots) == Incr(wr, 1, 2 * slots) < 2 * slots
    ensures DebuggerOccupancy(slots, wr, rd) == Occupancy(rd, wr, 2 * slots)
  {
    DivModUnique(wr, 0, 2 * slots, wr);
    IncrIsShift(wr, 1, slots);
    ModShift(wr, 1, 2 * slots);
    if wr < rd { Small(2 * slots + wr - rd); }
  }

  datatype Side = Rd | Wr

  function RunQueuePtr(slots: nat, steps: seq<Side>): (nat, nat)
    requires 1 <= slots
  {
    if steps == [] then (0, 0) else
      var (rd, wr) := RunQueuePtr(slots, steps[..|steps| - 1]);
      if steps[|steps| - 1].Rd? then (Incr(rd, 1, 2 * slots), wr) else (rd, Incr(wr, 1, 2 * slots))
  }

  function RunBufqPtr(slots: nat, steps: seq<Side>): (nat, nat) {
    if steps == [] then (0, 0) else
      var (rd, wr) := RunBufqPtr(slots, steps[..|steps| - 1]);
      if steps[|steps| - 1].Rd? then (BufqIncr(rd, slots), wr) else (rd, BufqIncr(wr, slots))
  }

  /** A run of single steps leaves both kinds of pointers equal at every point. */
  lemma {:induction false} Bisimulation(slots: nat, steps: seq<Side>)
    requires 1 <= slots <= U16 / 2
    ensures RunQueuePtr(slots, steps) == RunBufqPtr(slots, steps)
    ensures var (rd, wr) := RunBufqPtr(slots, steps); rd < 2 * slots && wr < 2 * slots
  {
    if steps != [] {
      Bisimulation(slots, steps[..|steps| - 1]);
      var (rd, wr) := RunBufqPtr(slots, steps[..|steps| - 1]);
      SameRing(rd, wr, slots);
      SameRing(wr, rd, slots);
    }
  }

  // ----- the objects

  class TtQueuePtr {
    var rdPtr: nat
    var wrPtr: nat
    var slots: nat
    var limit: nat

    /** p pushes and q pops have been made through this object. */
    ghost predicate Valid(p: nat, q: nat)
      reads this
    {
      limit == 2 * slots && slots <= U16 / 2 && Encodes(rdPtr, wrPtr, slots, p, q)
    }

    constructor (slots: nat)
      requires 1 <= slots <= U16 / 2
      ensures Valid(0, 0) && this.slots == slots
    {
      rdPtr, wrPtr := 0, 0;
      this.slots, limit := slots, 2 * slots;
      DivModUnique(0, 0, 2 * slots, 0);
    }

    method IncrRd(amount: nat, ghost p: nat, ghost q: nat)
      requires Valid(p, q) && amount <= p - q
      modifies this`rdPtr
      ensures Valid(p, q + amount)
      ensures rdPtr == (q + amount) % (2 * slots)
    {
      QueriesExact(rdPtr, wrPtr, slots, p, q);
      PopKeeps(rdPtr, wrPtr, slots, p, q, amount);
      rdPtr := ((rdPtr + amount) % U32) % limit % U16;
    }

    method IncrWr(amount: nat, ghost p: nat, ghost q: nat)
      requires Valid(p, q) && amount <= slots - (p - q)
      modifies this`wrPtr
      ensures Valid(p + amount, q)
      ensures wrPtr == (p + amount) % (2 * slots)
    {
      QueriesExact(rdPtr, wrPtr, slots, p, q);
      PushKeeps(rdPtr, wrPtr, slots, p, q, amount);
      wrPtr := ((wrPtr + amount) % U32) % limit % U16;
    }

    /** incr_get_rd: the slot of the oldest entry, and the pointer moved past it. */
    method IncrGetRd(amount: nat, ghost p: nat, ghost q: nat) returns (slot: nat)
      requires Valid(p, q) && amount <= p - q
      modifies this`rdPtr
      ensures Valid(p, q + amount) && slot == q % slots && rdPtr == (q + amount) % (2 * slots)
    {
      slot := GetRdPtr(p, q);
      IncrRd(amount, p, q);
    }

    method IncrGetWr(amount: nat, ghost p: nat, ghost q: nat) returns (slot: nat)
      requires Valid(p, q) && amount <= slots - (p - q)
      modifies this`wrPtr
      ensures Valid(p + amount, q) && slot == p % slots && wrPtr == (p + amount) % (2 * slots)
    {
      slot := GetWrPtr(p, q);
      IncrWr(amount, p, q);
    }

    method GetRdPtr(ghost p: nat, ghost q: nat) returns (slot: nat)
      requires Valid(p, q)
      ensures slot == q % slots
    {
      SlotOf(q, slots);
      slot := if rdPtr >= slots then rdPtr - slots else rdPtr;
    }

    method GetWrPtr(ghost p: nat, ghost q: nat) returns (slot: nat)
      requires Valid(p, q)
      ensures slot == p % slots
    {
      SlotOf(p, slots);
      slot := wrPtr;
      if slot >= slots {
        slot := slot - slots;
      }
    }

    method GetOccupancy(ghost p: nat, ghost q: nat) returns (n: int)
      requires Valid(p, q)
      ensures n == p - q
    {
      QueriesExact(rdPtr, wrPtr, slots, p, q);
      if wrPtr >= rdPtr {
        n := wrPtr - rdPtr;
      } else {
        n := (limit + wrPtr - rdPtr) % U32;
      }
    }

    method GetFreeSpace(ghost p: nat, ghost q: nat) returns (n: int)
      requires Valid(p, q)
      ensures n == slots - (p - q)
    {
      var occupancy := GetOccupancy(p, q);
      n := (slots - occupancy) % U32;
      Small(n);
    }

    method IsFull(ghost p: nat, ghost q: nat) returns (full: bool)
      requires Valid(p, q)
      ensures full <==> p - q == slots
    {
      QueriesExact(rdPtr, wrPtr, slots, p, q);
      full := false;
      if rdPtr != wrPtr {
        if wrPtr > rdPtr {
          full := (wrPtr - slots) % U32 == rdPtr;
        } else {
          full := (rdPtr - slots) % U32 == wrPtr;
        }
      }
    }

    method IsEmpty(ghost p: nat, ghost q: nat) returns (empty: bool)
      requires Valid(p, q)
      ensures empty <==> p == q
    {
      QueriesExact(rdPtr, wrPtr, slots, p, q);
      empty := rdPtr == wrPtr;
    }

    /** The guard of the callers: not empty, and then the batched-read test. */
    method CannotRead(amount: nat, ghost p: nat, ghost q: nat) returns (r: bool)
      requires Valid(p, q) && 1 <= amount && rdPtr + amount < U32
      ensures r <==> amount > p - q
    {
      BatchedReadExact(rdPtr, wrPtr, slots, p, q, amount);
      QueriesExact(rdPtr, wrPtr, slots, p, q);
      r := rdPtr == wrPtr || EmptyDuringBatchedRead(rdPtr, wrPtr, limit, amount);
    }
  }

  class TtBufqPtr {
    var rdPtr: nat
    var wrPtr: nat
    var slots: nat

    ghost predicate Valid(p: nat, q: nat)
      reads this
    {
      Encodes(rdPtr, wrPtr, slots, p, q)
    }

    constructor (slots: nat)
      requires 1 <= slots < U32 / 2
      ensures Valid(0, 0) && this.slots == slots
    {
      rdPtr, wrPtr, this.slots := 0, 0, slots;
      DivModUnique(0, 0, 2 * slots, 0);
    }

    method IncrRd(ghost p: nat, ghost q: nat) returns (slot: nat)
      requires Valid(p, q) && q < p
      modifies this`rdPtr
      ensures Valid(p, q + 1) && slot == q % slots && rdPtr == (q + 1) % (2 * slots)
    {
      SlotOf(q, slots);
      QueriesExact(rdPtr, wrPtr, slots, p, q);
      BufqIncrIsShift(q, slots);
      slot := rdPtr;
      rdPtr := rdPtr + 1;
      if rdPtr == 2 * slots {
        rdPtr := 0;
      }
      if slot >= slots {
        slot := slot - slots;
      }
    }

    method IncrWr(ghost p: nat, ghost q: nat) returns (slot: nat)
      requires Valid(p, q) && p - q < slots
      modifies this`wrPtr
      ensures Valid(p + 1, q) && slot == p % slots && wrPtr == (p + 1) % (2 * slots)
    {
      SlotOf(p, slots);
      QueriesExact(rdPtr, wrPtr, slots, p, q);
      BufqIncrIsShift(p, slots);
      slot := wrPtr;
      wrPtr := wrPtr + 1;
      if wrPtr == 2 * slots {
        wrPtr := 0;
      }
      if slot >= slots {
        slot := slot - slots;
      }
    }

    method IsFull(ghost p: nat, ghost q: nat) returns (full: bool)
      requires Valid(p, q)
      ensures full <==> p - q == slots
    {
      QueriesExact(rdPtr, wrPtr, slots, p, q);
      full := false;
      if rdPtr != wrPtr {
        if wrPtr > rdPtr {
          full := (wrPtr - slots) % U32 == rdPtr;
        } else {
          full := (rdPtr - slots) % U32 == wrPtr;
        }
      }
    }
  }
}
