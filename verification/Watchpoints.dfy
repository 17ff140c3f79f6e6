/** Hardware watchpoints: eight slots whose settings share one register
    (dbd/tt_debug_risc.py), allocated by the Z and z packets of dbd/tt_gdb_server.py. */
module Watchpoints {

  const SLOTS := 8

  // ----- the packed settings register

  predicate Aligned(s: bv32) { s <= 28 && s & 3 == 0 }

  predicate IsSetting(v: bv32) { v <= 15 }

  /** id * 4 */
  function Shift(id: nat): bv32
    requires id < SLOTS
  {
    if id == 0 then 0 else if id == 1 then 4 else if id == 2 then 8 else if id == 3 then 12
    else if id == 4 then 16 else if id == 5 then 20 else if id == 6 then 24 else 28
  }

  function FieldAt(register: bv32, s: bv32): bv32
    requires Aligned(s)
  {
    (register >> s) & 0xF
  }

  function UpdatedAt(register: bv32, s: bv32, value: bv32): bv32
    requires Aligned(s)
  {
    (register & !(0xF << s)) + (value << s)
  }

  lemma ShiftAligned(id: nat)
    requires id < SLOTS
    ensures Aligned(Shift(id))
  {}

  lemma ShiftInjective(i: nat, k: nat)
    requires i < SLOTS && k < SLOTS && Shift(i) == Shift(k)
    ensures i == k
  {}

  /** The setting of slot id. */
  function Field(register: bv32, id: nat): bv32
    requires id < SLOTS
  {
    ShiftAligned(id);
    FieldAt(register, Shift(id))
  }

  /** The register with the setting of slot id replaced, as the code computes it. */
  function Updated(register: bv32, id: nat, value: bv32): bv32
    requires id < SLOTS
  {
    ShiftAligned(id);
    UpdatedAt(register, Shift(id), value)
  }

  lemma UpdateAtShift(register: bv32, value: bv32, s: bv32, t: bv32)
    requires IsSetting(value) && Aligned(s) && Aligned(t)
    ensures FieldAt(UpdatedAt(register, s, value), t) == if t == s then value else FieldAt(register, t)
  {}

  /** An update changes its own field to the value and no other field. */
  lemma UpdateIsLocal(register: bv32, id: nat, value: bv32, k: nat)
    requires id < SLOTS && k < SLOTS && IsSetting(value)
    ensures Field(Updated(register, id, value), k) == if k == id then value else Field(register, k)
  {
    hide Shift, Aligned, FieldAt, UpdatedAt, IsSetting;
    ShiftAligned(id);
    ShiftAligned(k);
    UpdateAtShift(register, value, Shift(id), Shift(k));
    if Shift(id) == Shift(k) {
      ShiftInjective(id, k);
    }
  }

  /** Slot id has the four bits from bit 4 * id on. */
  lemma FieldBits(register: bv32, id: nat)
    requires id < 8
    ensures Field(register, id) == (register >> (4 * id)) & 0xF
  {
    if id == 0 {} else if id == 1 {} else if id == 2 {} else if id == 3 {}
    else if id == 4 {} else if id == 5 {} else if id == 6 {} else {}
  }

  /** The eight settings in the register, slot 0 in the lowest four bits. */
  function Nibbles(register: bv32): (n: seq<bv32>)
    ensures |n| == 8
  {
    [register & 0xF, (register >> 4) & 0xF, (register >> 8) & 0xF, (register >> 12) & 0xF,
     (register >> 16) & 0xF, (register >> 20) & 0xF, (register >> 24) & 0xF, (register >> 28) & 0xF]
  }

  /** The eight settings make up the whole register. */
  lemma NibblesMakeRegister(register: bv32)
    ensures var n := Nibbles(register);
      register == n[0] | (n[1] << 4) | (n[2] << 8) | (n[3] << 12) | (n[4] << 16) | (n[5] << 20) | (n[6] << 24) | (n[7] << 28)
  {}

  lemma FieldsOneByOne(register: bv32)
    ensures Field(register, 0) == register & 0xF && Field(register, 1) == (register >> 4) & 0xF
    ensures Field(register, 2) == (register >> 8) & 0xF && Field(register, 3) == (register >> 12) & 0xF
    ensures Field(register, 4) == (register >> 16) & 0xF && Field(register, 5) == (register >> 20) & 0xF
    ensures Field(register, 6) == (register >> 24) & 0xF && Field(register, 7) == (register >> 28) & 0xF
  {}

  lemma NibblesAreFields(register: bv32)
    ensures forall k :: 0 <= k < 8 ==> Nibbles(register)[k] == Field(register, k)
  {
    FieldsOneByOne(register);
    hide Field;
  }

  /** An update replaces the one setting among the eight. */
  lemma UpdatedNibbles(register: bv32, id: nat, value: bv32)
    requires id < 8 && value <= 15
    ensures Nibbles(Updated(register, id, value)) == Nibbles(register)[id := value]
  {
    NibblesAreFields(register);
    NibblesAreFields(Updated(register, id, value));
    hide Nibbles, Field, Updated;
    forall k | 0 <= k < 8
      ensures Field(Updated(register, id, value), k) == if k == id then value else Field(register, k)
    {
      UpdateIsLocal(register, id, value, k);
    }
  }

  // ----- the meaning of a setting

  datatype WatchState = WatchState(isEnabled: bool, isMemory: bool, isRead: bool, isWrite: bool) {
    predicate IsAccess() { isMemory && isRead && isWrite }
  }

  /** from_value */
  function Decode(value: bv32): WatchState {
    WatchState(value & 8 != 0, value & 3 != 0, value & 1 != 0, value & 2 != 0)
  }

  datatype Kind = Breakpoint | WriteWatch | ReadWatch | AccessWatch

  function Setting(kind: Kind): (v: bv32)
    ensures IsSetting(v)
  {
    match kind case Breakpoint => 8 case WriteWatch => 8 + 2 case ReadWatch => 8 + 1 case AccessWatch => 8 + 3
  }

  function StateOf(kind: Kind): WatchState {
    match kind
    case Breakpoint => WatchState(true, false, false, false)
    case WriteWatch => WatchState(true, true, false, true)
    case ReadWatch => WatchState(true, true, true, false)
    case AccessWatch => WatchState(true, true, true, true)
  }

  lemma DecodeSetting(kind: Kind)
    ensures Decode(Setting(kind)) == StateOf(kind) && !Decode(0).isEnabled && IsSetting(0)
  {}

  /** Bit 3 is the enable bit, bit 0 stands for reads, bit 1 for writes. */
  predicate SaysBits(s: WatchState, n: bv32) {
    && (s.isEnabled <==> n & 8 != 0) && (s.isRead <==> n & 1 != 0) && (s.isWrite <==> n & 2 != 0)
    && (s.isMemory <==> n & 1 != 0 || n & 2 != 0)
  }

  lemma DecodeBits()
    ensures forall n :: SaysBits(Decode(n), n)
  {}

  /** What each kind is written as. */
  lemma SettingBits(kind: Kind)
    ensures Setting(kind) == match kind case Breakpoint => 0x8 case ReadWatch => 0x9 case WriteWatch => 0xA case AccessWatch => 0xB
  {}

  /** Which enabled slots a packet of the given kind takes for its own. */
  predicate Answers(kind: Kind, s: WatchState) {
    s.isEnabled && match kind
      case Breakpoint => !s.isMemory
      case WriteWatch => s.isMemory && s.isWrite
      case ReadWatch => s.isMemory && s.isRead
      case AccessWatch => s.IsAccess()
  }

  // ----- the slots as an array

  datatype Slot = Slot(state: WatchState, address: nat)

  predicate Matches(s: Slot, kind: Kind, address: nat) {
    Answers(kind, s.state) && s.address == address
  }

  /** When a slot matches, in terms of its four bits. */
  lemma MatchBits(s: Slot, n: bv32, kind: Kind, address: nat)
    requires SaysBits(s.state, n)
    ensures Matches(s, kind, address) <==> s.address == address && n & 8 != 0 && match kind
      case Breakpoint => n & 1 == 0 && n & 2 == 0
      case WriteWatch => n & 2 != 0
      case ReadWatch => n & 1 != 0
      case AccessWatch => n & 1 != 0 && n & 2 != 0
  {}

  /** The first slot that matches, or the number of slots. */
  function FirstMatch(slots: seq<Slot>, kind: Kind, address: nat): (i: nat)
    ensures i <= |slots| && (i < |slots| ==> Matches(slots[i], kind, address))
    ensures forall k :: 0 <= k < i ==> !Matches(slots[k], kind, address)
  {
    if slots == [] || Matches(slots[0], kind, address) then 0 else 1 + FirstMatch(slots[1..], kind, address)
  }

  function FirstFree(slots: seq<Slot>): (i: nat)
    ensures i <= |slots| && (i < |slots| ==> !slots[i].state.isEnabled)
    ensures forall k :: 0 <= k < i ==> slots[k].state.isEnabled
  {
    if slots == [] || !slots[0].state.isEnabled then 0 else 1 + FirstFree(slots[1..])
  }

  datatype Reply = Ok | E01 | NoReply

  /** A Z packet: a matching slot serves it; otherwise the first free slot is taken. */
  function Insert(slots: seq<Slot>, kind: Kind, address: nat): (seq<Slot>, Reply) {
    if FirstMatch(slots, kind, address) < |slots| then (slots, Ok)
    else if FirstFree(slots) < |slots| then (slots[FirstFree(slots) := Slot(StateOf(kind), address)], Ok)
    else (slots, E01)
  }

  /** A z packet: the first matching slot is disabled and keeps its address. */
  function Remove(slots: seq<Slot>, kind: Kind, address: nat): (seq<Slot>, Reply) {
    var i := FirstMatch(slots, kind, address);
    if i < |slots| then (slots[i := Slot(Decode(0), slots[i].address)], Ok) else (slots, NoReply)
  }

  /** What is being watched: the address and state of every enabled slot. */
  ghost function Watches(slots: seq<Slot>): set<Slot> {
    set s | s in slots && s.state.isEnabled
  }

  ghost predicate NoDuplicates(slots: seq<Slot>) {
    forall i, k :: 0 <= i < k < |slots| && slots[i].state.isEnabled && slots[k].state.isEnabled ==> slots[i] != slots[k]
  }

  lemma OwnStateAnswers(kind: Kind)
    ensures Answers(kind, StateOf(kind))
  {}

  lemma InSeq(slots: seq<Slot>, i: nat, s: Slot, x: Slot)
    requires i < |slots|
    ensures x in slots[i := s] <==> x == s || exists k :: 0 <= k < |slots| && k != i && slots[k] == x
  {
    if x in slots[i := s] {
      var k :| 0 <= k < |slots| && slots[i := s][k] == x;
    }
    if x == s {
      assert slots[i := s][i] == x;
    } else if k :| 0 <= k < |slots| && k != i && slots[k] == x {
      assert slots[i := s][k] == x;
    }
  }

  /** An insert answers OK exactly when a slot matches or one is free. It then watches
      what it watched before, plus the new watchpoint if no slot matched. */
  lemma InsertMeaning(slots: seq<Slot>, kind: Kind, address: nat)
    requires NoDuplicates(slots)
    ensures var (slots', reply) := Insert(slots, kind, address);
      var matched := exists s :: s in slots && Matches(s, kind, address);
      && (reply.Ok? <==> matched || exists s :: s in slots && !s.state.isEnabled)
      && !reply.NoReply?
      && Watches(slots') == Watches(slots) + (if reply.Ok? && !matched then {Slot(StateOf(kind), address)} else {})
      && NoDuplicates(slots') && |slots'| == |slots|
  {
    var (slots', reply) := Insert(slots, kind, address);
    var m, f := FirstMatch(slots, kind, address), FirstFree(slots);
    OwnStateAnswers(kind);
    if m < |slots| {
      assert slots[m] in slots;
    } else if f < |slots| {
      var new' := Slot(StateOf(kind), address);
      assert slots[f] in slots;
      forall x
        ensures x in slots' && x.state.isEnabled <==> x == new' || (x in slots && x.state.isEnabled)
      {
        InSeq(slots, f, new', x);
      }
    }
  }

  /** A remove answers OK exactly when some slot matches, and then exactly one matching
      watchpoint is no longer watched. */
  lemma RemoveMeaning(slots: seq<Slot>, kind: Kind, address: nat)
    requires NoDuplicates(slots)
    ensures var (slots', reply) := Remove(slots, kind, address);
      && (reply.Ok? <==> exists s :: s in slots && Matches(s, kind, address))
      && (!reply.Ok? ==> reply.NoReply? && slots' == slots)
      && (reply.Ok? ==> exists s :: s in Watches(slots) && Matches(s, kind, address) && Watches(slots') == Watches(slots) - {s})
      && NoDuplicates(slots') && |slots'| == |slots|
  {
    var (slots', reply) := Remove(slots, kind, address);
    var m := FirstMatch(slots, kind, address);
    if m < |slots| {
      var gone, s := Slot(Decode(0), slots[m].address), slots[m];
      DecodeSetting(kind);
      assert s in slots && s in Watches(slots);
      forall x
        ensures x in slots' && x.state.isEnabled <==> x in slots && x.state.isEnabled && x != s
      {
        InSeq(slots, m, gone, x);
      }
      assert Watches(slots') == Watches(slots) - {s};
    }
  }

  function CountEnabled(slots: seq<Slot>): nat {
    if slots == [] then 0 else CountEnabled(slots[1..]) + if slots[0].state.isEnabled then 1 else 0
  }

  lemma {:induction false} WatchCount(slots: seq<Slot>)
    requires NoDuplicates(slots)
    ensures |Watches(slots)| == CountEnabled(slots)
    ensures CountEnabled(slots) <= |slots|
    ensures CountEnabled(slots) == |slots| <==> forall s :: s in slots ==> s.state.isEnabled
  {
    if slots == [] {
      assert Watches(slots) == {};
    } else {
      WatchCount(slots[1..]);
      assert forall s :: s in slots <==> s == slots[0] || s in slots[1..];
      if slots[0].state.isEnabled {
        assert Watches(slots) == Watches(slots[1..]) + {slots[0]};
        assert slots[0] !in slots[1..];
      } else {
        assert Watches(slots) == Watches(slots[1..]);
      }
    }
  }

  /** An insert fails exactly when nothing matches and as many different watchpoints
      are set as there are slots. */
  lemma FailsWhenFullExactly(slots: seq<Slot>, kind: Kind, address: nat)
    requires NoDuplicates(slots)
    ensures Insert(slots, kind, address).1.E01? <==>
      (forall s :: s in slots ==> !Matches(s, kind, address)) && |Watches(slots)| == |slots|
  {
    InsertMeaning(slots, kind, address);
    WatchCount(slots);
  }

  /** The enabled slots are the same, place by place. */
  ghost predicate SameEnabled(a: seq<Slot>, b: seq<Slot>) {
    |a| == |b| && forall k :: 0 <= k < |a| ==>
      a[k].state.isEnabled == b[k].state.isEnabled && (a[k].state.isEnabled ==> a[k] == b[k])
  }

  /** The remove that follows an insert undoes it exactly when the insert found no slot
      that matched. When one did match, that older watchpoint is lost. */
  lemma RemoveUndoesInsertExactly(slots: seq<Slot>, kind: Kind, address: nat)
    requires NoDuplicates(slots)
    ensures var (inserted, reply) := Insert(slots, kind, address);
      SameEnabled(Remove(inserted, kind, address).0, slots) <==> forall s :: s in slots ==> !Matches(s, kind, address)
  {
    var (inserted, reply) := Insert(slots, kind, address);
    var m, f := FirstMatch(slots, kind, address), FirstFree(slots);
    OwnStateAnswers(kind);
    DecodeSetting(kind);
    if m < |slots| {
      assert slots[m] in slots;
      assert !Remove(inserted, kind, address).0[m].state.isEnabled;
    } else if f < |slots| {
      var r := FirstMatch(inserted, kind, address);
      assert Matches(inserted[f], kind, address);
      assert forall k :: 0 <= k < |slots| && k != f ==> inserted[k] == slots[k];
      assert r == f;
    }
  }

  /** The kinds share slots: setting an access watchpoint, then setting and removing a
      write watchpoint at the same address, leaves the access watchpoint unset although
      every packet was answered with OK. */
  lemma WriteRemovalDropsAccess(slots: seq<Slot>, address: nat)
    requires NoDuplicates(slots) && exists s :: s in slots && !s.state.isEnabled
    requires forall s :: s in slots ==> s.address != address
    ensures var (s1, r1) := Insert(slots, AccessWatch, address);
      var (s2, r2) := Insert(s1, WriteWatch, address);
      var (s3, r3) := Remove(s2, WriteWatch, address);
      r1.Ok? && r2.Ok? && r3.Ok? && Watches(s3) == Watches(slots)
  {
    InsertMeaning(slots, AccessWatch, address);
    var (s1, r1) := Insert(slots, AccessWatch, address);
    InsertMeaning(s1, WriteWatch, address);
    var new' := Slot(StateOf(AccessWatch), address);
    assert new' in Watches(s1) && Matches(new', WriteWatch, address);
    RemoveMeaning(s1, WriteWatch, address);
    assert forall s :: s in Watches(s1) && s.address == address ==> s == new';
  }

  // ----- whole runs

  datatype Request = InsertAt(kind: Kind, address: nat) | RemoveAt(kind: Kind, address: nat)

  function AfterRequests(slots: seq<Slot>, requests: seq<Request>): seq<Slot> {
    if requests == [] then slots else
      var before := AfterRequests(slots, requests[..|requests| - 1]);
      match requests[|requests| - 1]
      case InsertAt(kind, address) => Insert(before, kind, address).0
      case RemoveAt(kind, address) => Remove(before, kind, address).0
  }

  /** However Z and z packets are mixed, no two enabled slots share address and setting. */
  lemma {:induction false} NeverDuplicates(slots: seq<Slot>, requests: seq<Request>)
    requires NoDuplicates(slots)
    ensures NoDuplicates(AfterRequests(slots, requests)) && |AfterRequests(slots, requests)| == |slots|
  {
    if requests != [] {
      var n := |requests| - 1;
      NeverDuplicates(slots, requests[..n]);
      var before := AfterRequests(slots, requests[..n]);
      match requests[n]
      case InsertAt(kind, address) => InsertMeaning(before, kind, address);
      case RemoveAt(kind, address) => RemoveMeaning(before, kind, address);
    }
  }

  // ----- the device and the packet handlers

  class RiscDebug {
    var settings: bv32
    var addresses: array<nat>
    const maxWatchpoints: nat := SLOTS

    ghost predicate Valid()
      reads this
    {
      addresses.Length == SLOTS
    }

    /** The device as an array of slots: the register fields beside the addresses. */
    ghost function Slots(): (s: seq<Slot>)
      requires Valid()
      reads this, addresses
      ensures |s| == SLOTS && forall i :: 0 <= i < SLOTS ==> s[i] == Slot(Decode(Field(settings, i)), addresses[i])
    {
      seq(SLOTS, i requires 0 <= i < SLOTS && addresses.Length == SLOTS reads this, addresses =>
        Slot(Decode(Field(settings, i)), addresses[i]))
    }

    /** __update_watchpoint_setting */
    method UpdateWatchpointSetting(id: nat, value: bv32)
      requires Valid() && id < SLOTS && IsSetting(value)
      modifies this`settings
      ensures [settings & 0xF, (settings >> 4) & 0xF, (settings >> 8) & 0xF, (settings >> 12) & 0xF,
               (settings >> 16) & 0xF, (settings >> 20) & 0xF, (settings >> 24) & 0xF, (settings >> 28) & 0xF]
           == old([settings & 0xF, (settings >> 4) & 0xF, (settings >> 8) & 0xF, (settings >> 12) & 0xF,
                   (settings >> 16) & 0xF, (settings >> 20) & 0xF, (settings >> 24) & 0xF, (settings >> 28) & 0xF])[id := value]
      ensures Valid() && Slots() == old(Slots())[id := Slot(Decode(value), addresses[id])]
    {
      UpdatedNibbles(settings, id, value);
      hide Field, Updated, Decode, IsSetting;
      forall k | 0 <= k < SLOTS
        ensures Field(Updated(settings, id, value), k) == if k == id then value else Field(settings, k)
      {
        UpdateIsLocal(settings, id, value, k);
      }
      settings := Updated(settings, id, value);
    }

    /** __set_watchpoint: first the address register, then the setting. */
    method SetWatchpoint(id: nat, address: nat, kind: Kind)
      requires Valid() && id < SLOTS
      modifies this`settings, addresses
      ensures Nibbles(settings) == old(Nibbles(settings))[id :=
        match kind case Breakpoint => 0x8 case ReadWatch => 0x9 case WriteWatch => 0xA case AccessWatch => 0xB]
      ensures addresses[..] == old(addresses[..])[id := address]
      ensures Valid() && Slots() == old(Slots())[id := Slot(StateOf(kind), address)]
    {
      DecodeSetting(kind);
      SettingBits(kind);
      hide Field, Decode, IsSetting, StateOf, Setting;
      ghost var before := Slots();
      addresses[id] := address;
      assert Slots() == before[id := Slot(before[id].state, address)];
      UpdateWatchpointSetting(id, Setting(kind));
    }

    method DisableWatchpoint(id: nat)
      requires Valid() && id < SLOTS
      modifies this`settings
      ensures Nibbles(settings) == old(Nibbles(settings))[id := 0]
      ensures Valid() && Slots() == old(Slots())[id := Slot(Decode(0), old(Slots())[id].address)]
    {
      DecodeSetting(Breakpoint);
      hide Field, Decode, IsSetting;
      UpdateWatchpointSetting(id, 0);
    }

    method ReadWatchpointsState() returns (states: seq<WatchState>)
      requires Valid()
      ensures |states| == 8 && forall i :: 0 <= i < 8 ==>
        var n := [settings & 0xF, (settings >> 4) & 0xF, (settings >> 8) & 0xF, (settings >> 12) & 0xF,
                  (settings >> 16) & 0xF, (settings >> 20) & 0xF, (settings >> 24) & 0xF, (settings >> 28) & 0xF][i];
        && (states[i].isEnabled <==> n & 8 != 0) && (states[i].isRead <==> n & 1 != 0) && (states[i].isWrite <==> n & 2 != 0)
        && (states[i].isMemory <==> n & 1 != 0 || n & 2 != 0)
      ensures forall i :: 0 <= i < SLOTS ==> states[i] == Slots()[i].state
    {
      SlotsSayBits();
      hide Field, Decode;
      states := [];
      for i := 0 to maxWatchpoints
        invariant |states| == i && forall k :: 0 <= k < i ==> states[k] == Slots()[k].state
      {
        states := states + [Decode(Field(settings, i))];
      }
    }

    lemma SlotsSayBits()
      requires Valid()
      ensures forall i :: 0 <= i < 8 ==> SaysBits(Slots()[i].state, Nibbles(settings)[i])
    {
      NibblesAreFields(settings);
      DecodeBits();
      hide Field, Decode, SaysBits, Nibbles;
    }

    /** The two searches in terms of the bits of the register. */
    lemma SearchBits(kind: Kind, address: nat)
      requires Valid()
      ensures FirstMatch(Slots(), kind, address) < 8 <==>
        (exists k :: 0 <= k < 8 && addresses[k] == address &&
           var n := Nibbles(settings)[k]; n & 8 != 0 && match kind
             case Breakpoint => n & 1 == 0 && n & 2 == 0
             case WriteWatch => n & 2 != 0
             case ReadWatch => n & 1 != 0
             case AccessWatch => n & 1 != 0 && n & 2 != 0)
      ensures var m := FirstMatch(Slots(), kind, address); forall k :: 0 <= k < 8 && k <= m ==>
        (k == m <==> (addresses[k] == address &&
           var n := Nibbles(settings)[k]; n & 8 != 0 && match kind
             case Breakpoint => n & 1 == 0 && n & 2 == 0
             case WriteWatch => n & 2 != 0
             case ReadWatch => n & 1 != 0
             case AccessWatch => n & 1 != 0 && n & 2 != 0))
      ensures var f := FirstFree(Slots());
        (f < 8 ==> Nibbles(settings)[f] & 8 == 0) && forall k :: 0 <= k < f ==> Nibbles(settings)[k] & 8 != 0
    {
      SlotsSayBits();
      hide Field, Decode, Nibbles, Matches;
      ghost var slots, n := Slots(), Nibbles(settings);
      forall k | 0 <= k < 8
        ensures Matches(slots[k], kind, address) <==> addresses[k] == address && n[k] & 8 != 0 && match kind
          case Breakpoint => n[k] & 1 == 0 && n[k] & 2 == 0
          case WriteWatch => n[k] & 2 != 0
          case ReadWatch => n[k] & 1 != 0
          case AccessWatch => n[k] & 1 != 0 && n[k] & 2 != 0
      {
        MatchBits(slots[k], n[k], kind, address);
      }
    }

    /** The Z0, Z2, Z3 and Z4 branches of process_message. The ghost result is the slot that
        is taken, or 8 if none is. */
    method HandleInsert(kind: Kind, address: nat) returns (reply: Reply, ghost taken: nat)
      requires Valid()
      modifies this`settings, addresses
      ensures Valid() && (Slots(), reply) == Insert(old(Slots()), kind, address)
      ensures taken <= 8 && (taken == 8 ==> settings == old(settings) && addresses[..] == old(addresses[..]))
      ensures taken < 8 ==>
        && reply.Ok? && addresses[..] == old(addresses[..])[taken := address]
        && Nibbles(settings) == old(Nibbles(settings))[taken :=
             match kind case Breakpoint => 0x8 case ReadWatch => 0x9 case WriteWatch => 0xA case AccessWatch => 0xB]
        && old(Nibbles(settings))[taken] & 8 == 0
      ensures reply.E01? || taken < 8 ==> forall k :: 0 <= k < taken ==> old(Nibbles(settings))[k] & 8 != 0
      ensures reply.Ok? && taken == 8 <==>
        (exists k :: 0 <= k < 8 && old(addresses[k]) == address &&
           var n := old(Nibbles(settings))[k]; n & 8 != 0 && match kind
             case Breakpoint => n & 1 == 0 && n & 2 == 0
             case WriteWatch => n & 2 != 0
             case ReadWatch => n & 1 != 0
             case AccessWatch => n & 1 != 0 && n & 2 != 0)
    {
      hide Field, Decode, StateOf, Nibbles, FirstFree, FirstMatch;
      ghost var slots := Slots();
      SearchBits(kind, address);
      taken := 8;
      var watchpoints := ReadWatchpointsState();
      for i := 0 to maxWatchpoints
        invariant Slots() == slots && forall k :: 0 <= k < i ==> !Matches(slots[k], kind, address)
      {
        if Answers(kind, watchpoints[i]) {
          var watchpointAddress := addresses[i];
          if watchpointAddress == address {
            assert Matches(slots[i], kind, address);
            return Ok, 8;
          }
        }
      }
      for i := 0 to maxWatchpoints
        invariant Slots() == slots && forall k :: 0 <= k < i ==> slots[k].state.isEnabled
      {
        if !watchpoints[i].isEnabled {
          assert FirstFree(slots) == i;
          SetWatchpoint(i, address, kind);
          return Ok, i;
        }
      }
      return E01, 8;
    }

    /** The z0, z2, z3 and z4 branches of process_message. The ghost result is the slot that
        is disabled, or 8 if none is. */
    method HandleRemove(kind: Kind, address: nat) returns (reply: Reply, ghost cleared: nat)
      requires Valid()
      modifies this`settings
      ensures Valid() && (Slots(), reply) == Remove(old(Slots()), kind, address)
      ensures cleared <= 8 && (reply.Ok? <==> cleared < 8) && (cleared == 8 ==> settings == old(settings))
      ensures cleared < 8 ==> Nibbles(settings) == old(Nibbles(settings))[cleared := 0]
      ensures forall k :: 0 <= k < 8 && k <= cleared ==>
        (k == cleared <==> (addresses[k] == address &&
           var n := old(Nibbles(settings))[k]; n & 8 != 0 && match kind
             case Breakpoint => n & 1 == 0 && n & 2 == 0
             case WriteWatch => n & 2 != 0
             case ReadWatch => n & 1 != 0
             case AccessWatch => n & 1 != 0 && n & 2 != 0))
    {
      hide Field, Decode, Nibbles;
      ghost var slots := Slots();
      SearchBits(kind, address);
      var watchpoints := ReadWatchpointsState();
      for i := 0 to maxWatchpoints
        invariant settings == old(settings)
        invariant Slots() == slots && forall k :: 0 <= k < i ==> !Matches(slots[k], kind, address)
      {
        if Answers(kind, watchpoints[i]) {
          var watchpointAddress := addresses[i];
          if watchpointAddress == address {
            assert FirstMatch(slots, kind, address) == i;
            DisableWatchpoint(i);
            return Ok, i;
          }
        }
      }
      return NoReply, 8;
    }
  }
}
