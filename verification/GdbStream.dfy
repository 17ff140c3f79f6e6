/** The writer, reader and parser objects of dbd/tt_gdb_communication.py. */
module GdbStream {
  import opened Basics
  import opened GdbCodec

  class MessageWriter {
    var data: seq<Byte>
    var checksum: nat
    ghost var payload: seq<Byte>   // what has been appended since the last send

    ghost predicate Valid()
      reads this
    {
      data == [DOLLAR] + Escape(payload) && checksum == Sum(Escape(payload))
    }

    constructor ()
      ensures Valid() && payload == []
    {
      data, checksum, payload := [DOLLAR], 0, [];
    }

    method Clear()
      modifies this
      ensures Valid() && payload == []
    {
      data := [];
      checksum := 0;
      data := data + [DOLLAR];
      payload := [];
    }

    method AppendChar(c: Byte)
      requires Valid()
      modifies this
      ensures Valid() && payload == old(payload) + [c]
    {
      AppendOne(payload, c);
      if c == DOLLAR || c == HASH || c == STAR || c == ESCAPE {
        var flipped := FlipBit5(c);
        data := data + [ESCAPE] + [flipped];
        checksum := checksum + (ESCAPE + flipped);
      } else {
        data := data + [c];
        checksum := checksum + c;
      }
      payload := payload + [c];
    }

    method Append(bytes: seq<Byte>)
      requires Valid()
      modifies this
      ensures Valid() && payload == old(payload) + bytes
    {
      var position := 0;
      while position < |bytes|
        invariant 0 <= position <= |bytes|
        invariant Valid() && payload == old(payload) + bytes[..position]
      {
        AppendChar(bytes[position]);
        position := position + 1;
      }
    }

    /** Digits are appended without escaping; none of them needs it. */
    method AppendHexDigit(digit: int)
      requires 0 <= digit < 16
      modifies this`data, this`checksum
      ensures data == old(data) + [Digit(digit)] && checksum == old(checksum) + Digit(digit)
    {
      var c: Byte;
      if digit < 10 {
        c := 48 + digit;
      } else {
        c := 55 + digit;
      }
      data := data + [c];
      checksum := checksum + c;
    }

    method AppendHex(number: int, minDigits: int)
      requires Valid()
      modifies this
      ensures Valid() && payload == old(payload) + HexText(number, minDigits)
      decreases MaxOf(0, number), MaxOf(0, minDigits)
    {
      hide Escape, Sum;
      ghost var before, front := payload, [];
      if number >= 16 || minDigits > 1 {
        AppendHex(number / 16, minDigits - 1);
        front := HexText(number / 16, minDigits - 1);
      }
      AppendOne(payload, Digit(number % 16));
      AppendHexDigit(number % 16);
      payload := payload + [Digit(number % 16)];
      assert before + front + [Digit(number % 16)] == before + (front + [Digit(number % 16)]);
    }

    method AppendThreadId(process: int, thread: int)
      requires Valid()
      modifies this
      ensures Valid() && payload == old(payload) + ThreadIdText(process, thread)
    {
      Append([LETTER_P]);
      AppendHex(process, 0);
      Append([DOT]);
      AppendHex(thread, 0);
    }

    /** Finishes the packet and starts a new one; the result is what goes to the socket. */
    method Send() returns (sent: seq<Byte>)
      requires Valid()
      modifies this
      ensures sent == Encode(Packet(old(payload)))
      ensures var n := |sent|;
        && n >= 4 && sent[0] == 36 && sent[1..n - 3] == Escape(old(payload)) && sent[n - 3] == 35
        && var sum := Sum(sent[1..n - 3]) % 256;
           && DigitValue(sent[n - 2]) * 16 + DigitValue(sent[n - 1]) == sum
           && sent[n - 2] == [48, 49, 50, 51, 52, 53, 54, 55, 56, 57, 65, 66, 67, 68, 69, 70][sum / 16]
           && sent[n - 1] == [48, 49, 50, 51, 52, 53, 54, 55, 56, 57, 65, 66, 67, 68, 69, 70][sum % 16]
      ensures Valid() && payload == []
    {
      PacketBytes(payload);
      data := data + [HASH];
      var sum := checksum % 256;
      AppendHexDigit(sum / 16);
      AppendHexDigit(sum % 16);
      sent := data;
      assert sent == Encode(Packet(payload));
      Clear();
    }
  }

  lemma AppendOne(payload: seq<Byte>, c: Byte)
    ensures Escape(payload + [c]) == Escape(payload) + EscapeByte(c)
    ensures Sum(Escape(payload + [c])) == Sum(Escape(payload)) + Sum(EscapeByte(c))
    ensures Sum(EscapeByte(c)) == if Special(c) then ESCAPE + FlipBit5(c) else c
  {
    EscapeAppend(payload, [c]);
    assert [c][1..] == [] && EscapeByte(c) + [] == EscapeByte(c);
    assert Escape([c]) == EscapeByte(c);
    SumAppend(Escape(payload), EscapeByte(c));
    SumEscapeByte(c);
  }

  // ----- the reader

  datatype ReadResult = Message(data: seq<Byte>) | NoData | Raised(error: Error)

  /** What read() does when it has `read` before it, of which `current` is the delivery in
      the buffer, and `later` deliveries are still to come. A delivery that is fetched in
      the middle of a packet replaces the buffer, but the position stays: as many bytes
      of it as had been read before are skipped. The outcome is the result, the buffer
      and the deliveries that are left. */
  function ReadOver(read: seq<Byte>, current: seq<Byte>, later: seq<seq<Byte>>): (ReadResult, seq<Byte>, seq<seq<Byte>>)
    decreases |later|
  {
    match ReadOne(read)
    case Got(message, rest) => (Message(message), rest, later)
    case Bad(error, rest) => (Raised(error), if error == BadChecksum then rest else current, later)
    case Incomplete =>
      if later == [] then (NoData, [], [])
      else if later[0] == [] then (NoData, [], later[1..])
      else if |later[0]| <= |read| then (Raised(IndexError), later[0], later[1..])
      else ReadOver(read + later[0][|read|..], later[0], later[1..])
  }

  lemma ReadOverDone(read: seq<Byte>, current: seq<Byte>, later: seq<seq<Byte>>)
    requires !ReadOne(read).Incomplete?
    ensures ReadOver(read, current, later) ==
      match ReadOne(read)
      case Got(message, rest) => (Message(message), rest, later)
      case Bad(error, rest) => (Raised(error), if error == BadChecksum then rest else current, later)
  {}

  /** What becomes of a packet that is split over two deliveries: of the second one the
      reader skips as many bytes as the first has, or raises an index error if there are
      no more. */
  lemma SplitPacket(payload: seq<Byte>, n: nat, more: seq<Byte>, later: seq<seq<Byte>>)
    requires 1 <= n < |Encode(Packet(payload))|
    ensures var packet := Encode(Packet(payload)); var second := packet[n..] + more;
      ReadOver(packet[..n], packet[..n], [second] + later) ==
        if |second| <= n then (Raised(IndexError), second, later)
        else ReadOver(packet[..n] + second[n..], second, later)
  {
    PrefixIsIncomplete(payload, n);
    var second := Encode(Packet(payload))[n..] + more;
    assert ([second] + later)[1..] == later;
  }

  /** All that the deliveries bring. */
  function Flat(deliveries: seq<seq<Byte>>): seq<Byte> {
    if deliveries == [] then [] else deliveries[0] + Flat(deliveries[1..])
  }

  /** A packet is read as it was sent, with exactly what follows it left unread, if and only
      if it is wholly in the first delivery: however it is spread over several, and
      whatever follows it, what read() returns is never the packet. */
  lemma ReadAsSentExactly(payload: seq<Byte>, n: nat, later: seq<seq<Byte>>, rest: seq<Byte>)
    requires 1 <= n <= |Encode(Packet(payload))|
    requires Encode(Packet(payload))[..n] + Flat(later) == Encode(Packet(payload)) + rest
    ensures var first := Encode(Packet(payload))[..n];
      var (r, buffer, left) := ReadOver(first, first, later);
      (r == Message(payload) && buffer + Flat(left) == rest) <==> n == |Encode(Packet(payload))|
  {
    var packet := Encode(Packet(payload));
    if n == |packet| {
      assert packet[..n] == packet && packet + [] == packet;
      ReadInvertsEncode(Packet(payload), []);
      assert (packet + Flat(later))[n..] == Flat(later) && (packet + rest)[n..] == rest;
      assert [] + Flat(later) == rest;
    } else {
      PrefixIsIncomplete(payload, n);
      OnlyFirstIsDollar(payload);
      NotReadAsSent(payload, rest, 0, packet[..n], packet[..n], later);
    }
  }

  /** The induction: the delivery in the buffer starts at place `at` of the stream of all
      bytes. A byte of `read` that comes from an earlier delivery comes from an earlier
      place than it would have in this one, so what lies within the packet is no '$'. */
  lemma {:induction false} NotReadAsSent(payload: seq<Byte>, rest: seq<Byte>, at: nat, read: seq<Byte>,
                                         current: seq<Byte>, later: seq<seq<Byte>>)
    requires var packet := Encode(Packet(payload));
      && packet[0] == DOLLAR && (forall j :: 1 <= j < |packet| ==> packet[j] != DOLLAR)
      && at + |current| <= |packet + rest| && (packet + rest)[at + |current|..] == Flat(later)
      && (forall j :: 1 <= j < |read| && at + j < |packet| ==> read[j] != DOLLAR)
    requires |read| == |current| >= 1 && read[0] == DOLLAR
    requires at >= 1 || ReadOne(read).Incomplete?
    ensures var (r, buffer, left) := ReadOver(read, current, later);
      !(r == Message(payload) && |buffer| + |Flat(left)| == |rest|)
    decreases |later|
  {
    var packet := Encode(Packet(payload));
    match ReadOne(read)
    case Got(message, unread) =>
      if |unread| + |Flat(later)| == |rest| {
        MessageIsShorter(read, |packet| - at);
      }
    case Bad(_, _) =>
    case Incomplete =>
      if later != [] && |later[0]| > |read| {
        var next := at + |current|;
        var read' := read + later[0][|read|..];
        assert later[0] == Flat(later)[..|later[0]|] && Flat(later[1..]) == Flat(later)[|later[0]|..];
        forall j | 1 <= j < |read'| && next + j < |packet|
          ensures read'[j] != DOLLAR
        {
          if j >= |read| {
            assert read'[j] == later[0][j] == Flat(later)[j] == (packet + rest)[next + j] == packet[next + j];
          }
        }
        NotReadAsSent(payload, rest, next, read', later[0], later[1..]);
      }
  }

  /** A message that is read from the first q bytes, none of them a raw '$', takes all of
      them to encode, or fewer. */
  lemma MessageIsShorter(read: seq<Byte>, q: nat)
    requires read != [] && read[0] == DOLLAR && ReadOne(read).Got? && |read| - |ReadOne(read).rest| == q
    requires forall j :: 1 <= j < q && j < |read| ==> read[j] != DOLLAR
    ensures |Encode(Packet(ReadOne(read).message))| <= q
  {
    ScanIsLongEnough(read, 1, false, [], 0);
  }

  /** The search has come to the position, without an end or a mark, whatever follows. */
  ghost predicate Scanned(read: seq<Byte>, position: nat, escaped: bool, message: seq<Byte>, checksum: nat) {
    && 1 <= position <= |read| && read[0] == DOLLAR
    && forall t: seq<Byte> :: Scan(read + t, 1, false, [], 0) == Scan(read + t, position, escaped, message, checksum)
  }

  lemma ScannedStart(read: seq<Byte>)
    requires read != [] && read[0] == DOLLAR
    ensures Scanned(read, 1, false, [], 0)
  {}

  lemma ScannedStep(read: seq<Byte>, position: nat, escaped: bool, message: seq<Byte>, checksum: nat)
    requires Scanned(read, position, escaped, message, checksum) && position < |read|
    ensures var c := read[position];
      if escaped then Scanned(read, position + 1, false, message + [FlipBit5(c)], checksum + c)
      else if c == ESCAPE then Scanned(read, position + 1, true, message, checksum + c)
      else if c == STAR then ReadOne(read) == Bad(RleUnsupported, read)
      else if c == HASH then Ended(read, position + 1, message, checksum)
      else Scanned(read, position + 1, false, message + [c], checksum + c)
  {
    hide FlipBit5;
    var c := read[position];
    forall t: seq<Byte>
      ensures Scan(read + t, 1, false, [], 0) ==
        if escaped then Scan(read + t, position + 1, false, message + [FlipBit5(c)], checksum + c)
        else if c == ESCAPE then Scan(read + t, position + 1, true, message, checksum + c)
        else if c == STAR then RleSeen
        else if c == HASH then Found(position + 1, message, checksum)
        else Scan(read + t, position + 1, false, message + [c], checksum + c)
    {
      assert (read + t)[position] == c;
    }
    assert read + [] == read;
  }

  lemma ScannedMore(read: seq<Byte>, position: nat, escaped: bool, message: seq<Byte>, checksum: nat, u: seq<Byte>)
    requires Scanned(read, position, escaped, message, checksum)
    ensures Scanned(read + u, position, escaped, message, checksum)
  {
    forall t: seq<Byte>
      ensures Scan(read + u + t, 1, false, [], 0) == Scan(read + u + t, position, escaped, message, checksum)
    {
      assert read + u + t == read + (u + t);
    }
  }

  /** One more byte, after more has been fetched if need be. */
  lemma ScannedNow(before: seq<Byte>, read: seq<Byte>, position: nat, escaped: bool, message: seq<Byte>, checksum: nat)
    requires Scanned(before, position, escaped, message, checksum) && before <= read && position < |read|
    ensures var c := read[position];
      if escaped then Scanned(read, position + 1, false, message + [FlipBit5(c)], checksum + c)
      else if c == ESCAPE then Scanned(read, position + 1, true, message, checksum + c)
      else if c == STAR then ReadOne(read) == Bad(RleUnsupported, read)
      else if c == HASH then Ended(read, position + 1, message, checksum)
      else Scanned(read, position + 1, false, message + [c], checksum + c)
  {
    hide Scanned, Ended, ReadOne;
    assert read == before + read[|before|..];
    ScannedMore(before, position, escaped, message, checksum, read[|before|..]);
    ScannedStep(read, position, escaped, message, checksum);
  }

  lemma ScannedAll(read: seq<Byte>, escaped: bool, message: seq<Byte>, checksum: nat)
    requires Scanned(read, |read|, escaped, message, checksum)
    ensures ReadOne(read) == Incomplete
  {
    assert read + [] == read;
  }

  /** The packet's data end at the position, whatever follows. */
  ghost predicate Ended(read: seq<Byte>, position: nat, message: seq<Byte>, checksum: nat) {
    && 1 <= position <= |read| && read[0] == DOLLAR
    && forall t: seq<Byte> :: Scan(read + t, 1, false, [], 0) == Found(position, message, checksum)
  }

  lemma EndedNow(before: seq<Byte>, read: seq<Byte>, position: nat, message: seq<Byte>, checksum: nat)
    requires Ended(before, position, message, checksum) && before <= read
    ensures Ended(read, position, message, checksum)
  {
    var u := read[|before|..];
    assert read == before + u;
    forall t: seq<Byte>
      ensures Scan(read + t, 1, false, [], 0) == Found(position, message, checksum)
    {
      assert read + t == before + (u + t);
    }
  }

  lemma EndedReading(read: seq<Byte>, position: nat, message: seq<Byte>, checksum: nat)
    requires Ended(read, position, message, checksum)
    ensures ReadOne(read) ==
      if position + 1 >= |read| then Incomplete
      else if ChecksumPasses(checksum, read[position], read[position + 1]) then Got(message, read[position + 2..])
      else Bad(BadChecksum, read[position + 2..])
  {
    assert read + [] == read;
  }

  class InputStream {
    var inputBuffer: seq<Byte>
    var nextMessage: seq<Byte>
    var incoming: seq<seq<Byte>>   // what the socket will deliver, read by read

    constructor (incoming: seq<seq<Byte>>)
      ensures this.incoming == incoming && inputBuffer == []
    {
      inputBuffer, nextMessage, this.incoming := [], [], incoming;
    }

    /** The buffer that read() starts on: a fresh delivery if the old one is used up. */
    ghost function Effective(): (seq<Byte>, seq<seq<Byte>>)
      reads this
    {
      if inputBuffer != [] then (inputBuffer, incoming)
      else if incoming == [] then ([], []) else (incoming[0], incoming[1..])
    }

    /** Reads from the socket only if the position is past the buffer, and then replaces
        the buffer instead of extending it. */
    method EnsureInputBuffer(position: nat) returns (ok: bool)
      modifies this`inputBuffer, this`incoming
      ensures position < old(|inputBuffer|) ==> ok && inputBuffer == old(inputBuffer) && incoming == old(incoming)
      ensures position >= old(|inputBuffer|) && old(incoming) != [] ==>
        inputBuffer == old(incoming)[0] && incoming == old(incoming)[1..] && (ok <==> inputBuffer != [])
      ensures position >= old(|inputBuffer|) && old(incoming) == [] ==> !ok && inputBuffer == [] && incoming == []
    {
      if position < |inputBuffer| {
        return true;
      }
      if incoming == [] {
        inputBuffer := [];
      } else {
        inputBuffer := incoming[0];
        incoming := incoming[1..];
      }
      return |inputBuffer| > 0;
    }

    /** `read` is what has been before the reader in this call: it is as long as the buffer
        and agrees with it from the position on. */
    ghost predicate Follows(read: seq<Byte>, position: nat)
      reads this
    {
      && |read| == |inputBuffer| && position <= |read|
      && forall k :: position <= k < |read| ==> read[k] == inputBuffer[k]
    }

    /** Makes sure there is a byte at the position, fetching a delivery if need be. */
    method Fetch(position: nat, ghost read: seq<Byte>) returns (r: Option<ReadResult>, ghost read': seq<Byte>)
      requires Follows(read, position) && (position == |read| ==> ReadOne(read) == Incomplete)
      modifies this`inputBuffer, this`incoming
      ensures r.Some? ==> (r.value, inputBuffer, incoming) == old(ReadOver(read, inputBuffer, incoming))
      ensures r.None? ==> Follows(read', position) && position < |read'| && read <= read'
      ensures r.None? ==> ReadOver(read', inputBuffer, incoming) == old(ReadOver(read, inputBuffer, incoming))
      ensures r.None? ==> |incoming| < old(|incoming|) || (incoming == old(incoming) && inputBuffer == old(inputBuffer))
    {
      read' := read;
      var ok := EnsureInputBuffer(position);
      if !ok {
        return Some(NoData), read';
      }
      if position >= |inputBuffer| {
        return Some(Raised(IndexError)), read';
      }
      if position == |read| {
        read' := read + inputBuffer[position..];
      }
      return None, read';
    }

    /** read(): an item that is wholly in the buffer is returned and exactly it is removed;
        a run-length mark, a wrong start or a refused checksum raises; what a packet that is
        not wholly in the buffer is taken for is said by ReadOver. */
    method Read() returns (r: ReadResult)
      modifies this
      ensures var (buffer, later) := old(Effective());
        (r, inputBuffer, incoming) == if buffer == [] then (NoData, [], later) else ReadOver(buffer, buffer, later)
    {
      ghost var (buffer, later) := Effective();
      var ok := EnsureInputBuffer(0);
      if !ok {
        return NoData;
      }
      if inputBuffer[0] == PLUS {
        inputBuffer := inputBuffer[1..];
        return Message([PLUS]);
      }
      if inputBuffer[0] == MINUS {
        inputBuffer := inputBuffer[1..];
        return Message([MINUS]);
      }
      if inputBuffer[0] != DOLLAR {
        return Raised(BadStart);
      }
      nextMessage := [];
      ScannedStart(buffer);
      var stop, position, checksum;
      ghost var read;
      stop, position, checksum, read := FindEnd(buffer);
      if stop.Some? {
        return stop.value;
      }
      r := FinishPacket(position, checksum, read);
    }

    /** The loop of read() that looks for the '#'. */
    method FindEnd(ghost start: seq<Byte>) returns (stop: Option<ReadResult>, position: nat, checksum: nat, ghost read: seq<Byte>)
      requires Follows(start, 1) && Scanned(start, 1, false, nextMessage, 0)
      modifies this
      ensures stop.Some? ==> (stop.value, inputBuffer, incoming) == old(ReadOver(start, inputBuffer, incoming))
      ensures stop.None? ==> Follows(read, position) && Ended(read, position, nextMessage, checksum)
      ensures stop.None? ==> ReadOver(read, inputBuffer, incoming) == old(ReadOver(start, inputBuffer, incoming))
    {
      hide Scanned, Ended, ReadOver, ReadOne;
      position, checksum, read := 1, 0, start;
      var shouldEscape := false;
      while true
        invariant Follows(read, position) && Scanned(read, position, shouldEscape, nextMessage, checksum)
        invariant ReadOver(read, inputBuffer, incoming) == old(ReadOver(start, inputBuffer, incoming))
        decreases |incoming|, |inputBuffer| - position
      {
        if position == |read| {
          ScannedAll(read, shouldEscape, nextMessage, checksum);
        }
        ghost var before := read;
        stop, read := Fetch(position, read);
        if stop.Some? {
          return;
        }
        ScannedNow(before, read, position, shouldEscape, nextMessage, checksum);
        var nextChar := inputBuffer[position];
        assert nextChar == read[position];
        if shouldEscape {
          shouldEscape := false;
          nextMessage := nextMessage + [FlipBit5(nextChar)];
        } else if nextChar == ESCAPE {
          shouldEscape := true;
        } else if nextChar == STAR {
          ReadOverDone(read, inputBuffer, incoming);
          stop := Some(Raised(RleUnsupported));
          return;
        } else if nextChar == HASH {
          position := position + 1;
          return;
        } else {
          nextMessage := nextMessage + [nextChar];
        }
        checksum := checksum + nextChar;
        position := position + 1;
      }
    }

    /** The end of read(): the two check digits, and trimming the packet off the buffer. */
    method FinishPacket(start: nat, sum: nat, ghost read: seq<Byte>) returns (r: ReadResult)
      requires Follows(read, start) && Ended(read, start, nextMessage, sum)
      modifies this`inputBuffer, this`incoming
      ensures (r, inputBuffer, incoming) == old(ReadOver(read, inputBuffer, incoming))
    {
      hide Ended, ReadOver, ReadOne, Scan;
      var position := start;
      var checksum := sum % 256;
      var checksum1 := checksum / 16;
      var checksum2 := checksum % 16;
      EndedReading(read, start, nextMessage, sum);
      ghost var read1, read2;
      var stop;
      stop, read1 := Fetch(position, read);
      if stop.Some? {
        return stop.value;
      }
      EndedNow(read, read1, start, nextMessage, sum);
      EndedReading(read1, start, nextMessage, sum);
      var correct := checksum1 != inputBuffer[position];
      position := position + 1;
      stop, read2 := Fetch(position, read1);
      if stop.Some? {
        return stop.value;
      }
      EndedNow(read1, read2, start, nextMessage, sum);
      EndedReading(read2, start, nextMessage, sum);
      correct := correct && checksum2 != inputBuffer[position];
      position := position + 1;
      ReadOverDone(read2, inputBuffer, incoming);
      assert inputBuffer[position..] == read2[position..];
      inputBuffer := inputBuffer[position..];
      if !correct {
        return Raised(BadChecksum);
      }
      return Message(nextMessage);
    }

    /** Reading as many times as items were sent gives their contents in order. */
    method ReadItems(ghost items: seq<Item>, n: nat) returns (messages: seq<seq<Byte>>)
      requires n == |items| && inputBuffer == EncodeAll(items)
      modifies this
      ensures messages == Contents(items) && inputBuffer == [] && incoming == old(incoming)
    {
      messages := [];
      assert items[0..] == items;
      hide ReadOne, Encode, EncodeAll, Content;
      for i := 0 to n
        invariant inputBuffer == EncodeAll(items[i..]) && incoming == old(incoming)
        invariant messages == Contents(items[..i])
      {
        NextItem(items, i);
        var r := Read();
        messages := messages + [r.data];
      }
      assert items[..n] == items && items[n..] == [];
      NothingSent();
    }
  }

  lemma NothingSent()
    ensures EncodeAll([]) == []
  {}

  /** What the next reading finds, and how the list of contents grows by it. */
  lemma NextItem(items: seq<Item>, i: nat)
    requires i < |items|
    ensures EncodeAll(items[i..]) != []
    ensures ReadOne(EncodeAll(items[i..])) == Got(Content(items[i]), EncodeAll(items[i + 1..]))
    ensures Contents(items[..i + 1]) == Contents(items[..i]) + [Content(items[i])]
  {
    assert items[i..][1..] == items[i + 1..];
    ReadInvertsEncode(items[i], EncodeAll(items[i + 1..]));
    assert items[..i + 1] == items[..i] + [items[i]];
  }

  // ----- the parser of one message

  class MessageParser {
    var data: seq<Byte>
    var position: nat

    ghost predicate Valid()
      reads this
    {
      position <= |data|
    }

    constructor (data: seq<Byte>)
      ensures Valid() && this.data == data && position == 0
    {
      this.data, position := data, 0;
    }

    /** Whether the value comes next; the position moves past it only if it does. */
    method Parse(value: seq<Byte>) returns (found: bool)
      requires Valid()
      modifies this`position
      ensures Valid() && found == StandsAt(data, old(position), value)
      ensures found <==> old(position) + |value| <= |data| && data[old(position)..old(position) + |value|] == value
      ensures position == if found then old(position) + |value| else old(position)
    {
      if position + |value| > |data| {
        return false;
      }
      var valuePosition, dataPosition := 0, position;
      while valuePosition < |value|
        invariant 0 <= valuePosition <= |value| && dataPosition == position + valuePosition
        invariant position == old(position)
        invariant forall i :: 0 <= i < valuePosition ==> data[position + i] == value[i]
      {
        if data[dataPosition] != value[valuePosition] {
          assert data[position..position + |value|][valuePosition] != value[valuePosition];
          return false;
        }
        dataPosition := dataPosition + 1;
        valuePosition := valuePosition + 1;
      }
      assert data[position..position + |value|] == value;
      position := dataPosition;
      return true;
    }

    method ParseHex() returns (number: Option<int>)
      requires Valid()
      modifies this`position
      ensures Valid() && number == ParsedHex(data, old(position)) && position == DigitsEnd(data, old(position))
    {
      number := None;
      ghost var start := position;
      assert HexValue(data[start..start]) == 0;
      hide HexValue;
      while position < |data|
        invariant start <= position <= |data|
        invariant DigitsEnd(data, start) == DigitsEnd(data, position)
        invariant number == if position == start then None else Some(HexValue(data[start..position]))
      {
        var c := data[position];
        if !IsHexDigit(c) {
          break;
        }
        var soFar := if number.None? then 0 else number.value;
        var value := if c >= 97 then c - 87 else if c >= 65 then c - 55 else c - 48;
        assert value == DigitValue(c);
        HexValueOneMore(data, start, position);
        hide IsHexDigit, DigitValue;
        number := Some(soFar * 16 + value);
        position := position + 1;
      }
    }

    method ParseThreadId() returns (id: ThreadId)
      requires Valid()
      modifies this`position
      ensures Valid() && (id, position) == ParsedThreadId(data, old(position))
    {
      var hasProcess := Parse([LETTER_P]);
      if hasProcess {
        var process := ParseHex();
        var hasThread := Parse([DOT]);
        if hasThread {
          var thread := ParseHex();
          return ThreadId(process, thread);
        }
        return ThreadId(process, Some(-1));
      }
      var thread := ParseHex();
      return ThreadId(Some(-1), thread);
    }
  }

  /** Writer, reader and parser together: a thread id that is written, sent, received and
      parsed comes back as it was, for all non-negative numbers. */
  method ThreadIdThroughTheWire(process: nat, thread: nat) returns (id: ThreadId)
    ensures id == ThreadId(Some(process as int), Some(thread as int))
  {
    var writer := new MessageWriter();
    writer.AppendThreadId(process, thread);
    ghost var text := writer.payload;
    var sent := writer.Send();
    var stream := new InputStream([sent]);
    ReadInvertsEncode(Packet(text), []);
    assert sent + [] == sent;
    var r := stream.Read();
    var parser := new MessageParser(r.data);
    ThreadIdRoundTripExactly([], process, thread, []);
    assert [] + ThreadIdText(process, thread) + [] == text;
    id := parser.ParseThreadId();
  }
}
