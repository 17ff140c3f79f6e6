/** The packet format of dbd/tt_gdb_communication.py as functions on byte sequences:
    escaping, checksum, hexadecimal numbers, and what a reader makes of a buffer. */
module GdbCodec {
  import opened Basics

  type Byte = b: int | 0 <= b < 256

  const PLUS: Byte := 43
  const MINUS: Byte := 45
  const DOLLAR: Byte := 36
  const HASH: Byte := 35
  const ESCAPE: Byte := 125
  const STAR: Byte := 42
  const DOT: Byte := 46
  const LETTER_P: Byte := 112

  /** b ^ 0x20 */
  function FlipBit5(b: Byte): Byte {
    if (b / 32) % 2 == 1 then b - 32 else b + 32
  }

  /** The flip is the exclusive or with 0x20: bit 5 changes, the bits above and below stay. */
  lemma FlipIsXor(above: nat, bit5: nat, below: nat)
    requires above < 4 && bit5 < 2 && below < 32
    ensures FlipBit5(above * 64 + bit5 * 32 + below) == above * 64 + (1 - bit5) * 32 + below
  {}

  predicate Special(b: Byte) { b == DOLLAR || b == HASH || b == STAR || b == ESCAPE }

  function EscapeByte(b: Byte): seq<Byte> {
    if Special(b) then [ESCAPE, FlipBit5(b)] else [b]
  }

  function Escape(data: seq<Byte>): seq<Byte> {
    if data == [] then [] else EscapeByte(data[0]) + Escape(data[1..])
  }

  /** Escaping byte by byte: '$', '#', '*' and '}' become '}' and one other byte, and every
      other byte stays as it is. */
  lemma EscapeOfByte(b: Byte)
    ensures Escape([b]) == if b == 36 then [125, 4] else if b == 35 then [125, 3] else if b == 42 then [125, 10]
                           else if b == 125 then [125, 93] else [b]
  {
    assert Escape([b]) == EscapeByte(b) + [];
  }

  function Sum(data: seq<Byte>): nat {
    if data == [] then 0 else data[0] + Sum(data[1..])
  }

  lemma {:induction false} SumAppend(a: seq<Byte>, b: seq<Byte>)
    ensures Sum(a + b) == Sum(a) + Sum(b)
  {
    if a == [] {
      assert a + b == b;
    } else {
      assert (a + b)[1..] == a[1..] + b;
      SumAppend(a[1..], b);
    }
  }

  lemma {:induction false} EscapeAppend(a: seq<Byte>, b: seq<Byte>)
    ensures Escape(a + b) == Escape(a) + Escape(b)
  {
    if a == [] {
      assert a + b == b && [] + Escape(b) == Escape(b);
    } else {
      assert (a + b)[1..] == a[1..] + b;
      EscapeAppend(a[1..], b);
      Regroup(EscapeByte(a[0]), Escape(a[1..]), Escape(b));
    }
  }

  lemma Regroup(a: seq<Byte>, b: seq<Byte>, c: seq<Byte>)
    ensures (a + b) + c == a + (b + c)
  {}

  // ----- hexadecimal numbers

  function Digit(d: int): Byte
    requires 0 <= d < 16
  {
    if d < 10 then 48 + d else 55 + d
  }

  predicate IsHexDigit(c: Byte) {
    48 <= c <= 57 || 65 <= c <= 70 || 97 <= c <= 102
  }

  function DigitValue(c: Byte): int {
    if c >= 97 then c - 87 else if c >= 65 then c - 55 else c - 48
  }

  /** The sixteen digits that are written. */
  lemma DigitTable(d: int)
    requires 0 <= d < 16
    ensures Digit(d) == [48, 49, 50, 51, 52, 53, 54, 55, 56, 57, 65, 66, 67, 68, 69, 70][d]
  {}

  lemma DigitRoundTrip(d: int)
    requires 0 <= d < 16
    ensures DigitValue(Digit(d)) == d
  {}

  /** The digits that are read: 0 to 9 and the letters of either case. */
  lemma DigitsRead(c: Byte)
    ensures IsHexDigit(c) <==> c in [48, 49, 50, 51, 52, 53, 54, 55, 56, 57, 65, 66, 67, 68, 69, 70, 97, 98, 99, 100, 101, 102]
    ensures IsHexDigit(c) ==>
      && 0 <= DigitValue(c) < 16
      && (|| c == [48, 49, 50, 51, 52, 53, 54, 55, 56, 57, 65, 66, 67, 68, 69, 70][DigitValue(c)]
          || c == [48, 49, 50, 51, 52, 53, 54, 55, 56, 57, 97, 98, 99, 100, 101, 102][DigitValue(c)])
  {}

  /** append_hex; `/` and `%` round towards minus infinity as in the code. */
  function HexText(number: int, minDigits: int): (t: seq<Byte>)
    ensures |t| >= 1
    ensures forall i :: 0 <= i < |t| ==> IsHexDigit(t[i]) && !Special(t[i])
    decreases MaxOf(0, number), MaxOf(0, minDigits)
  {
    if number >= 16 || minDigits > 1 then HexText(number / 16, minDigits - 1) + [Digit(number % 16)]
    else [Digit(number % 16)]
  }

  /** The value of a string of digits. */
  function HexValue(t: seq<Byte>): int {
    if t == [] then 0 else HexValue(t[..|t| - 1]) * 16 + DigitValue(t[|t| - 1])
  }

  lemma HexValueAppend(t: seq<Byte>, c: Byte)
    ensures HexValue(t + [c]) == HexValue(t) * 16 + DigitValue(c)
  {
    assert (t + [c])[..|t|] == t;
  }

  lemma HexValueOneMore(data: seq<Byte>, start: nat, end: nat)
    requires start <= end < |data|
    ensures HexValue(data[start..end + 1]) == HexValue(data[start..end]) * 16 + DigitValue(data[end])
  {
    assert data[start..end + 1] == data[start..end] + [data[end]];
    HexValueAppend(data[start..end], data[end]);
  }

  lemma {:induction false} HexTextValue(number: nat, minDigits: int)
    ensures HexValue(HexText(number, minDigits)) == number
    decreases MaxOf(0, number), MaxOf(0, minDigits)
  {
    DigitRoundTrip(number % 16);
    if number >= 16 || minDigits > 1 {
      HexTextValue(number / 16, minDigits - 1);
      HexValueAppend(HexText(number / 16, minDigits - 1), Digit(number % 16));
    } else {
      assert HexValue([]) == 0;
      assert [Digit(number % 16)][..0] == [];
    }
  }

  /** A number is written with at least the asked digits and without needless zeros. */
  lemma {:induction false} HexTextShape(number: nat, minDigits: int)
    ensures var t := HexText(number, minDigits);
      && |t| >= minDigits && (|t| > MaxOf(1, minDigits) ==> t[0] != 48)
      && forall i :: 0 <= i < |t| ==> 48 <= t[i] <= 57 || 65 <= t[i] <= 70
    decreases MaxOf(0, number), MaxOf(0, minDigits)
  {
    if number >= 16 || minDigits > 1 {
      HexTextShape(number / 16, minDigits - 1);
    }
  }

  lemma {:induction false} HexValueNonNegative(t: seq<Byte>)
    requires forall i :: 0 <= i < |t| ==> IsHexDigit(t[i])
    ensures HexValue(t) >= 0
  {
    if t != [] { HexValueNonNegative(t[..|t| - 1]); }
  }

  // ----- packets

  /** Everything the peer may send: an acknowledgement or a packet with a payload. */
  datatype Item = AckOk | AckError | Packet(payload: seq<Byte>)

  function Content(item: Item): seq<Byte> {
    match item case AckOk => [PLUS] case AckError => [MINUS] case Packet(p) => p
  }

  function Encode(item: Item): (r: seq<Byte>)
    ensures |r| >= 1
  {
    match item
    case AckOk => [PLUS]
    case AckError => [MINUS]
    case Packet(p) =>
      var body := Escape(p);
      var checksum := Sum(body) % 256;
      [DOLLAR] + body + [HASH, Digit(checksum / 16), Digit(checksum % 16)]
  }

  /** A packet byte by byte: '$', the escaped payload, '#', and in upper-case hexadecimal
      the sum of what stands between the two, modulo 256. */
  lemma PacketBytes(payload: seq<Byte>)
    ensures var packet := Encode(Packet(payload)); var n := |packet|; var sum := Sum(Escape(payload)) % 256;
      && n >= 4 && packet[0] == 36 && packet[1..n - 3] == Escape(payload) && packet[n - 3] == 35
      && DigitValue(packet[n - 2]) * 16 + DigitValue(packet[n - 1]) == sum
      && packet[n - 2] == [48, 49, 50, 51, 52, 53, 54, 55, 56, 57, 65, 66, 67, 68, 69, 70][sum / 16]
      && packet[n - 1] == [48, 49, 50, 51, 52, 53, 54, 55, 56, 57, 65, 66, 67, 68, 69, 70][sum % 16]
  {
    var packet, sum := Encode(Packet(payload)), Sum(Escape(payload)) % 256;
    DigitTable(sum / 16);
    DigitTable(sum % 16);
    DigitRoundTrip(sum / 16);
    DigitRoundTrip(sum % 16);
    hide Escape, Sum, Digit, DigitValue;
    assert packet[1..|packet| - 3] == Escape(payload);
  }

  function EncodeAll(items: seq<Item>): seq<Byte> {
    if items == [] then [] else Encode(items[0]) + EncodeAll(items[1..])
  }

  // ----- the reader on a buffer that is not refilled

  datatype ScanResult =
    | Found(position: nat, message: seq<Byte>, checksum: nat)
    | RleSeen
    | EndOfBuffer

  /** The search for the end of a packet, from a position and with what was collected. */
  function Scan(buffer: seq<Byte>, position: nat, escaped: bool, message: seq<Byte>, checksum: nat): ScanResult
    decreases |buffer| - position
  {
    if position >= |buffer| then EndOfBuffer else
      var c := buffer[position];
      if escaped then Scan(buffer, position + 1, false, message + [FlipBit5(c)], checksum + c)
      else if c == ESCAPE then Scan(buffer, position + 1, true, message, checksum + c)
      else if c == STAR then RleSeen
      else if c == HASH then Found(position + 1, message, checksum)
      else Scan(buffer, position + 1, false, message + [c], checksum + c)
  }

  datatype Error = BadStart | RleUnsupported | BadChecksum | IndexError

  datatype Reading = Incomplete | Bad(error: Error, rest: seq<Byte>) | Got(message: seq<Byte>, rest: seq<Byte>)

  /** The test that read() applies to the two bytes after '#': each must differ from
      the number that the checksum nibble is. */
  predicate ChecksumPasses(checksum: nat, hi: Byte, lo: Byte) {
    checksum % 256 / 16 != hi && checksum % 256 % 16 != lo
  }

  function ReadOne(buffer: seq<Byte>): Reading {
    if buffer == [] then Incomplete
    else if buffer[0] == PLUS then Got([PLUS], buffer[1..])
    else if buffer[0] == MINUS then Got([MINUS], buffer[1..])
    else if buffer[0] != DOLLAR then Bad(BadStart, buffer)
    else match Scan(buffer, 1, false, [], 0)
      case EndOfBuffer => Incomplete
      case RleSeen => Bad(RleUnsupported, buffer)
      case Found(p, message, checksum) =>
        if p + 1 >= |buffer| then Incomplete
        else if ChecksumPasses(checksum, buffer[p], buffer[p + 1]) then Got(message, buffer[p + 2..])
        else Bad(BadChecksum, buffer[p + 2..])
  }

  lemma FlipTwice(b: Byte)
    ensures FlipBit5(FlipBit5(b)) == b
  {}

  /** Text t stands in the buffer at the position. */
  ghost predicate Stands(buffer: seq<Byte>, position: nat, t: seq<Byte>) {
    position + |t| <= |buffer| && forall i :: 0 <= i < |t| ==> buffer[position + i] == t[i]
  }

  /** Scanning over escaped data collects the data and the sum of the escaped bytes. */
  lemma {:induction false} ScanEscaped(buffer: seq<Byte>, position: nat, data: seq<Byte>, message: seq<Byte>, checksum: nat)
    requires Stands(buffer, position, Escape(data))
    ensures Scan(buffer, position, false, message, checksum)
         == Scan(buffer, position + |Escape(data)|, false, message + data, checksum + Sum(Escape(data)))
    decreases |data|
  {
    EscapeFirst(data);
    hide *;
    if data == [] {
      assert message + data == message;
    } else {
      var b, eb, rest := data[0], EscapeByte(data[0]), Escape(data[1..]);
      StandsSplit(buffer, position, eb, rest);
      ScanByte(buffer, position, b, message, checksum);
      ScanEscaped(buffer, position + |eb|, data[1..], message + [b], checksum + Sum(eb));
      MoveFirst(message, data);
      SumAppend(eb, rest);
    }
  }

  lemma EscapeFirst(data: seq<Byte>)
    ensures if data == [] then Escape(data) == [] && Sum(Escape(data)) == 0
            else Escape(data) == EscapeByte(data[0]) + Escape(data[1..])
  {}

  lemma MoveFirst(a: seq<Byte>, b: seq<Byte>)
    requires b != []
    ensures a + [b[0]] + b[1..] == a + b
  {}

  lemma StandsSplit(buffer: seq<Byte>, position: nat, a: seq<Byte>, b: seq<Byte>)
    requires Stands(buffer, position, a + b)
    ensures Stands(buffer, position, a) && Stands(buffer, position + |a|, b)
  {
    assert forall i :: 0 <= i < |b| ==> b[i] == (a + b)[|a| + i];
    assert forall i :: 0 <= i < |a| ==> a[i] == (a + b)[i];
  }

  lemma ScanByte(buffer: seq<Byte>, position: nat, b: Byte, message: seq<Byte>, checksum: nat)
    requires Stands(buffer, position, EscapeByte(b))
    ensures Scan(buffer, position, false, message, checksum)
         == Scan(buffer, position + |EscapeByte(b)|, false, message + [b], checksum + Sum(EscapeByte(b)))
  {
    SumEscapeByte(b);
    assert buffer[position] == EscapeByte(b)[0];
    if Special(b) {
      hide Sum, FlipBit5;
      FlipTwice(b);
      assert buffer[position + 1] == EscapeByte(b)[1];
      assert Scan(buffer, position, false, message, checksum) == Scan(buffer, position + 1, true, message, checksum + ESCAPE);
    }
  }

  lemma SumEscapeByte(b: Byte)
    ensures Sum(EscapeByte(b)) == if Special(b) then ESCAPE + FlipBit5(b) else b
  {
    if Special(b) {
      assert EscapeByte(b)[1..] == [FlipBit5(b)];
      assert [FlipBit5(b)][1..] == [];
      assert Sum([FlipBit5(b)]) == FlipBit5(b);
    } else {
      assert EscapeByte(b)[1..] == [];
    }
  }

  /** What the reader makes of a packet whose check digits are the bytes hi and lo. */
  lemma ReadPacket(payload: seq<Byte>, hi: Byte, lo: Byte, rest: seq<Byte>)
    ensures var body := Escape(payload);
      var buffer := [DOLLAR] + body + [HASH, hi, lo] + rest;
      && Scan(buffer, 1, false, [], 0) == Found(|body| + 2, payload, Sum(body))
      && ReadOne(buffer) == if ChecksumPasses(Sum(body), hi, lo) then Got(payload, rest) else Bad(BadChecksum, rest)
  {
    var body := Escape(payload);
    var buffer := [DOLLAR] + body + [HASH, hi, lo] + rest;
    assert Stands(buffer, 1, body);
    ScanEscaped(buffer, 1, payload, [], 0);
    assert [] + payload == payload;
    assert buffer[1 + |body|] == HASH && buffer[|body| + 2] == hi && buffer[|body| + 3] == lo;
    assert buffer[|body| + 4..] == rest;
  }

  /** What the reader makes of the first byte: '+' and '-' are items of their own, and
      anything but '$' is refused. */
  lemma FirstByteDecides(b: Byte, rest: seq<Byte>)
    ensures var r := ReadOne([b] + rest);
      if b == 43 || b == 45 then r == Got([b], rest)
      else b != 36 ==> r == Bad(BadStart, [b] + rest)
  {
    assert ([b] + rest)[1..] == rest;
  }

  /** A raw '*' within a packet, the mark of run-length encoding, is refused. */
  lemma StarIsRefused(payload: seq<Byte>, rest: seq<Byte>)
    ensures ReadOne([36] + Escape(payload) + [42] + rest) == Bad(RleUnsupported, [36] + Escape(payload) + [42] + rest)
  {
    var body := Escape(payload);
    var buffer := [36] + body + [42] + rest;
    assert Stands(buffer, 1, body);
    ScanEscaped(buffer, 1, payload, [], 0);
    hide Escape, Sum, FlipBit5, Stands;
    assert buffer[1 + |body|] == 42;
  }

  /** Reading what was encoded gives the content back and leaves what follows it. The
      checksum the reader computes is the one the writer computed. */
  lemma ReadInvertsEncode(item: Item, rest: seq<Byte>)
    ensures ReadOne(Encode(item) + rest) == Got(Content(item), rest)
    ensures item.Packet? ==>
      var body := Escape(item.payload);
      Scan(Encode(item) + rest, 1, false, [], 0) == Found(|body| + 2, item.payload, Sum(body))
  {
    if item.Packet? {
      var checksum := Sum(Escape(item.payload)) % 256;
      ReadPacket(item.payload, Digit(checksum / 16), Digit(checksum % 16), rest);
    } else {
      assert (Encode(item) + rest)[1..] == rest;
    }
  }

  /** An encoded packet has no '$' but the first, even if the payload has some. */
  lemma OnlyFirstIsDollar(payload: seq<Byte>)
    ensures var packet := Encode(Packet(payload));
      packet[0] == DOLLAR && forall j :: 1 <= j < |packet| ==> packet[j] != DOLLAR
  {
    NoRawDollar(payload);
  }

  lemma {:induction false} NoRawDollar(data: seq<Byte>)
    ensures DOLLAR !in Escape(data)
  {
    if data != [] {
      NoRawDollar(data[1..]);
    }
  }

  /** As long as no raw '$' is met, what the search collects takes no more bytes to escape
      than it has been collected from. */
  lemma {:induction false} ScanIsLongEnough(buffer: seq<Byte>, position: nat, escaped: bool, message: seq<Byte>, checksum: nat)
    requires Scan(buffer, position, escaped, message, checksum).Found?
    requires var end := Scan(buffer, position, escaped, message, checksum).position;
      forall j :: position <= j < end - 1 && j < |buffer| ==> buffer[j] != DOLLAR
    ensures var end := Scan(buffer, position, escaped, message, checksum);
      |Escape(end.message)| <= |Escape(message)| + (end.position - 1 - position) + if escaped then 1 else 0
    decreases |buffer| - position
  {
    var c := buffer[position];
    if escaped {
      EscapeOne(message, FlipBit5(c));
      ScanIsLongEnough(buffer, position + 1, false, message + [FlipBit5(c)], checksum + c);
    } else if c == ESCAPE {
      ScanIsLongEnough(buffer, position + 1, true, message, checksum + c);
    } else if c != HASH {
      EscapeOne(message, c);
      ScanOfPrefix(buffer, position + 1, false, message + [c], checksum + c, |buffer|);
      ScanIsLongEnough(buffer, position + 1, false, message + [c], checksum + c);
    }
  }

  lemma EscapeOne(message: seq<Byte>, c: Byte)
    ensures |Escape(message + [c])| == |Escape(message)| + if Special(c) then 2 else 1
  {
    EscapeAppend(message, [c]);
    assert Escape([c]) == EscapeByte(c) + [];
  }

  /** A packet that is cut off anywhere is not taken for a whole one. */
  lemma PrefixIsIncomplete(payload: seq<Byte>, n: nat)
    requires 1 <= n < |Encode(Packet(payload))|
    ensures ReadOne(Encode(Packet(payload))[..n]) == Incomplete
  {
    var packet, body := Encode(Packet(payload)), Escape(payload);
    assert packet + [] == packet;
    ReadInvertsEncode(Packet(payload), []);
    ScanOfPrefix(packet, 1, false, [], 0, n);
  }

  /** What the search finds in the first n bytes. */
  lemma {:induction false} ScanOfPrefix(buffer: seq<Byte>, position: nat, escaped: bool, message: seq<Byte>, checksum: nat, n: nat)
    requires n <= |buffer| && Scan(buffer, position, escaped, message, checksum).Found?
    ensures var whole := Scan(buffer, position, escaped, message, checksum);
      Scan(buffer[..n], position, escaped, message, checksum) == if whole.position <= n then whole else EndOfBuffer
    ensures position < Scan(buffer, position, escaped, message, checksum).position <= |buffer|
    decreases |buffer| - position
  {
    var c := buffer[position];
    if position < n { assert buffer[..n][position] == c; }
    if escaped {
      ScanOfPrefix(buffer, position + 1, false, message + [FlipBit5(c)], checksum + c, n);
    } else if c == ESCAPE {
      ScanOfPrefix(buffer, position + 1, true, message, checksum + c, n);
    } else if c != HASH {
      ScanOfPrefix(buffer, position + 1, false, message + [c], checksum + c, n);
    }
  }

  function ReadMany(buffer: seq<Byte>, n: nat): Option<(seq<seq<Byte>>, seq<Byte>)> {
    if n == 0 then Some(([], buffer)) else
      match ReadOne(buffer)
      case Got(m, rest) =>
        (match ReadMany(rest, n - 1)
         case Some((ms, end)) => Some(([m] + ms, end))
         case None => None)
      case _ => None
  }

  function Contents(items: seq<Item>): (r: seq<seq<Byte>>)
    ensures |r| == |items| && forall i :: 0 <= i < |items| ==> r[i] == Content(items[i])
  {
    seq(|items|, i requires 0 <= i < |items| => Content(items[i]))
  }

  /** A stream of packets and acknowledgements is read back in order and used up. */
  lemma {:induction false} StreamRoundTrip(items: seq<Item>, rest: seq<Byte>)
    ensures ReadMany(EncodeAll(items) + rest, |items|) == Some((Contents(items), rest))
  {
    if items == [] {
      assert EncodeAll(items) + rest == rest;
    } else {
      assert EncodeAll(items) + rest == Encode(items[0]) + (EncodeAll(items[1..]) + rest);
      ReadInvertsEncode(items[0], EncodeAll(items[1..]) + rest);
      StreamRoundTrip(items[1..], rest);
      assert [Content(items[0])] + Contents(items[1..]) == Contents(items);
    }
  }

  /** Which two bytes follow the '#' hardly matters: a packet is accepted exactly when
      neither equals the bare nibble, so every pair of digits is accepted, right or wrong. */
  lemma AnyDigitsAccepted(payload: seq<Byte>, hi: Byte, lo: Byte, rest: seq<Byte>)
    ensures ReadOne([DOLLAR] + Escape(payload) + [HASH, hi, lo] + rest) == Got(payload, rest)
            <==> Sum(Escape(payload)) % 256 / 16 != hi && Sum(Escape(payload)) % 256 % 16 != lo
    ensures IsHexDigit(hi) && IsHexDigit(lo) ==>
      ReadOne([DOLLAR] + Escape(payload) + [HASH, hi, lo] + rest) == Got(payload, rest)
  {
    ReadPacket(payload, hi, lo, rest);
  }

  // ----- the message parser

  /** parse: whether `value` stands at the position. */
  predicate StandsAt(data: seq<Byte>, position: nat, value: seq<Byte>) {
    position + |value| <= |data| && data[position..position + |value|] == value
  }

  /** The end of the run of hex digits that starts at the position. */
  function DigitsEnd(data: seq<Byte>, position: nat): (e: nat)
    requires position <= |data|
    ensures position <= e <= |data|
    ensures forall i :: position <= i < e ==> IsHexDigit(data[i])
    ensures e < |data| ==> !IsHexDigit(data[e])
    decreases |data| - position
  {
    if position < |data| && IsHexDigit(data[position]) then DigitsEnd(data, position + 1) else position
  }

  /** parse_hex: the value of the run of digits, or None if there is none. */
  function ParsedHex(data: seq<Byte>, position: nat): Option<int>
    requires position <= |data|
  {
    var e := DigitsEnd(data, position);
    if e == position then None else Some(HexValue(data[position..e]))
  }

  lemma {:induction false} DigitsEndAt(data: seq<Byte>, position: nat, e: nat)
    requires position <= e <= |data|
    requires forall i :: position <= i < e ==> IsHexDigit(data[i])
    requires e < |data| ==> !IsHexDigit(data[e])
    ensures DigitsEnd(data, position) == e
    decreases e - position
  {
    if position < e { DigitsEndAt(data, position + 1, e); }
  }

  predicate StartsWithoutDigit(s: seq<Byte>) { s != [] ==> !IsHexDigit(s[0]) }

  /** parse_hex reads back what append_hex wrote exactly when the number is not negative. */
  lemma HexRoundTripExactly(pre: seq<Byte>, number: int, minDigits: int, post: seq<Byte>)
    requires StartsWithoutDigit(post)
    ensures var data := pre + HexText(number, minDigits) + post;
      && DigitsEnd(data, |pre|) == |pre| + |HexText(number, minDigits)|
      && (ParsedHex(data, |pre|) == Some(number) <==> number >= 0)
  {
    var t := HexText(number, minDigits);
    var data := pre + t + post;
    DigitsEndAt(data, |pre|, |pre| + |t|);
    assert data[|pre|..|pre| + |t|] == t;
    HexValueNonNegative(t);
    if number >= 0 {
      HexTextValue(number, minDigits);
    }
  }

  datatype ThreadId = ThreadId(process: Option<int>, thread: Option<int>)

  function ThreadIdText(process: int, thread: int): seq<Byte> {
    [LETTER_P] + HexText(process, 0) + [DOT] + HexText(thread, 0)
  }

  /** parse_thread_id: the identifier and the position after it. */
  function ParsedThreadId(data: seq<Byte>, position: nat): (ThreadId, nat)
    requires position <= |data|
  {
    if StandsAt(data, position, [LETTER_P]) then
      var process, dot := ParsedHex(data, position + 1), DigitsEnd(data, position + 1);
      if StandsAt(data, dot, [DOT]) then
        (ThreadId(process, ParsedHex(data, dot + 1)), DigitsEnd(data, dot + 1))
      else (ThreadId(process, Some(-1)), dot)
    else (ThreadId(Some(-1), ParsedHex(data, position)), DigitsEnd(data, position))
  }

  /** parse_thread_id reads back what append_thread_id wrote exactly when neither number
      is negative; in particular -1 for "all" does not survive. */
  lemma ThreadIdRoundTripExactly(pre: seq<Byte>, process: int, thread: int, post: seq<Byte>)
    requires StartsWithoutDigit(post)
    ensures var data := pre + ThreadIdText(process, thread) + post;
      && ParsedThreadId(data, |pre|).1 == |pre| + |ThreadIdText(process, thread)|
      && (ParsedThreadId(data, |pre|).0 == ThreadId(Some(process), Some(thread)) <==> process >= 0 && thread >= 0)
  {
    hide HexText, DigitsEnd, ParsedHex;
    var data := pre + ThreadIdText(process, thread) + post;
    var t1, t2 := HexText(process, 0), HexText(thread, 0);
    var pre1, post1 := pre + [LETTER_P], [DOT] + t2 + post;
    var pre2 := pre + [LETTER_P] + t1 + [DOT];
    Slices(pre, t1, t2, post);
    HexRoundTripExactly(pre1, process, 0, post1);
    HexRoundTripExactly(pre2, thread, 0, post);
  }

  /** The short form for a process: it stands for all its threads. */
  lemma ProcessAlone(pre: seq<Byte>, process: nat, post: seq<Byte>)
    requires StartsWithoutDigit(post) && (post != [] ==> post[0] != 46)
    ensures ParsedThreadId(pre + [112] + HexText(process, 0) + post, |pre|).0 == ThreadId(Some(process), Some(-1))
  {
    hide HexText, DigitsEnd, ParsedHex;
    var t := HexText(process, 0);
    var data := (pre + [112]) + t + post;
    HexRoundTripExactly(pre + [112], process, 0, post);
    assert data[|pre|..|pre| + 1] == [112];
    if post != [] {
      assert data[|pre| + 1 + |t|] == post[0];
      assert data[|pre| + 1 + |t|..|pre| + 2 + |t|][0] == post[0];
    }
  }

  /** The short form for a thread, whose process is not said. */
  lemma ThreadAlone(pre: seq<Byte>, thread: nat, post: seq<Byte>)
    requires StartsWithoutDigit(post)
    ensures ParsedThreadId(pre + HexText(thread, 0) + post, |pre|).0 == ThreadId(Some(-1), Some(thread))
  {
    hide HexText, DigitsEnd, ParsedHex;
    var t := HexText(thread, 0);
    var data := pre + t + post;
    HexRoundTripExactly(pre, thread, 0, post);
    assert data[|pre|] == t[0];
    assert data[|pre|..|pre| + 1][0] == t[0];
  }

  lemma Slices(pre: seq<Byte>, t1: seq<Byte>, t2: seq<Byte>, post: seq<Byte>)
    ensures var data := pre + ([LETTER_P] + t1 + [DOT] + t2) + post;
      && data == (pre + [LETTER_P]) + t1 + ([DOT] + t2 + post)
      && data == (pre + [LETTER_P] + t1 + [DOT]) + t2 + post
      && StandsAt(data, |pre|, [LETTER_P])
      && StandsAt(data, |pre| + 1 + |t1|, [DOT])
  {
    var data := pre + ([LETTER_P] + t1 + [DOT] + t2) + post;
    assert data[|pre|..|pre| + 1] == [LETTER_P];
    assert data[|pre| + 1 + |t1|..|pre| + 1 + |t1| + 1] == [DOT];
  }
}
