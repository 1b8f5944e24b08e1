/** WebSocket frames (section 5 of RFC 6455): how `send` of the client writes one, and how
    `read_message` of the server takes frames from its input, unmasks them, puts fragmented messages
    together and keeps to its size limit. Bytes are integers, and a shift by 8 * c bits is c
    divisions or multiplications by 256. */
module Frames {
  import opened Text

  type Byte = x: int | 0 <= x < 256

  // The number of values of a std::size_t.
  const SIZES: nat := 0x1_0000_0000_0000_0000

  // ----- Specification: one frame -----

  // Exclusive or, bit by bit from the lowest.
  function XorBits(a: nat, b: nat, bits: nat): (x: nat)
    ensures x < TwoTo(bits)
  {
    if bits == 0 then 0
    else 2 * XorBits(a / 2, b / 2, bits - 1) + if a % 2 == b % 2 then 0 else 1
  }

  function TwoTo(bits: nat): nat {
    if bits == 0 then 1 else 2 * TwoTo(bits - 1)
  }

  function Xor(a: Byte, b: Byte): Byte {
    assert TwoTo(4) == 16;
    XorBits(a, b, 8)
  }

  // Section 5.3: masking, which is also unmasking.
  function Masked(payload: seq<Byte>, mask: seq<Byte>): (masked: seq<Byte>)
    requires |mask| == 4
    ensures |masked| == |payload|
    ensures forall i :: 0 <= i < |payload| ==> masked[i] == Xor(payload[i], mask[i % 4])
  {
    seq(|payload|, i requires 0 <= i < |payload| => Xor(payload[i], mask[i % 4]))
  }

  // A number in k bytes, most significant first, and the number that bytes stand for.
  function BigEndian(n: nat, k: nat): (bytes: seq<Byte>)
    ensures |bytes| == k
  {
    if k == 0 then [] else BigEndian(n / 256, k - 1) + [n % 256]
  }

  function Value(bytes: seq<Byte>): nat {
    if bytes == [] then 0 else 256 * Value(bytes[..|bytes| - 1]) + bytes[|bytes| - 1]
  }

  function ShiftRight(n: nat, bytes: nat): nat {
    if bytes == 0 then n else ShiftRight(n, bytes - 1) / 256
  }

  function ShiftLeft(n: nat, bytes: nat): nat {
    if bytes == 0 then n else 256 * ShiftLeft(n, bytes - 1)
  }

  lemma {:induction false} ValueInRange(bytes: seq<Byte>)
    ensures Value(bytes) < ShiftLeft(1, |bytes|)
  {
    if bytes == [] {
    } else {
      ValueInRange(bytes[..|bytes| - 1]);
    }
  }

  lemma Ranges()
    ensures ShiftLeft(1, 2) == 0x1_0000 && ShiftLeft(1, 8) == SIZES
  {
    assert ShiftLeft(1, 2) == 0x1_0000;
    assert ShiftLeft(1, 4) == 0x1_0000_0000;
    assert ShiftLeft(1, 6) == 0x1_0000_0000_0000;
  }

  // Section 5.2, with the mask bit set: a length below 126 is in the second byte, a longer one in
  // the next two bytes, or the next eight.
  function LengthField(length: nat): seq<Byte> {
    if length < 126 then [128 + length]
    else if length <= 0xffff then [128 + 126] + BigEndian(length, 2)
    else [128 + 127] + BigEndian(length, 8)
  }

  function Frame(finRsvOpcode: Byte, mask: seq<Byte>, payload: seq<Byte>): seq<Byte>
    requires |mask| == 4
  {
    [finRsvOpcode] + LengthField(|payload|) + mask + Masked(payload, mask)
  }

  datatype Incoming = Incoming(finRsvOpcode: Byte, payload: seq<Byte>)

  // What the server makes of its input: the input ends too early, the frame is not masked, it
  // would make the message too big, or the server has a frame.
  datatype Reading = Short | NotMasked | TooBig | Got(frame: Incoming, rest: seq<Byte>)

  // The number of bytes of an extended length.
  function Extended(lengthByte: Byte): nat {
    if lengthByte % 128 == 126 then 2 else if lengthByte % 128 == 127 then 8 else 0
  }

  // What a stream with nothing left gives: the low byte of EOF, every time.
  function FromNothing(length: nat): seq<Byte> {
    seq(length, _ => 255)
  }

  // Mask and content, taken from the bytes transferred. Where these end before the mask does, the
  // mask keeps its zeros and the content comes from nothing.
  function Unmasked(bytes: seq<Byte>, length: nat): (payload: seq<Byte>)
    requires |bytes| == 4 + length || |bytes| < 4
    ensures |payload| == length
  {
    if |bytes| >= 4 then Masked(bytes[4..], bytes[..4])
    else Masked(FromNothing(length), bytes + [0, 0, 0, 0][|bytes|..])
  }

  // The number of bytes to transfer, a std::size_t, wraps around, like the sum that is checked.
  function Transferred(length: nat): (n: nat)
    requires length < SIZES
    ensures n == 4 + length || n < 4
  {
    (4 + length) % SIZES
  }

  function ReadContent(finRsvOpcode: Byte, length: nat, input: seq<Byte>, pending: nat, max: nat): Reading
    requires length < SIZES
  {
    var n := Transferred(length);
    if (length + pending) % SIZES > max then TooBig
    else if |input| < n then Short
    else Got(Incoming(finRsvOpcode, Unmasked(input[..n], length)), input[n..])
  }

  // The length of a frame whose header this starts with.
  function Declared(header: seq<Byte>): (length: nat)
    requires |header| >= 2 && |header| >= 2 + Extended(header[1])
    ensures length < SIZES
  {
    var k := Extended(header[1]);
    ValueInRange(header[2..2 + k]);
    Ranges();
    if k == 0 then header[1] % 128 else Value(header[2..2 + k])
  }

  // `pending` is the length of the message being put together, `max` the limit.
  function Read(input: seq<Byte>, pending: nat, max: nat): Reading {
    if |input| < 2 then Short
    else if input[1] < 128 then NotMasked
    else
      var k := Extended(input[1]);
      if |input| < 2 + k then Short
      else ReadContent(input[0], Declared(input), input[2 + k..], pending, max)
  }

  // ----- Specification: messages -----

  datatype InMessage = InMessage(finRsvOpcode: Byte, length: nat, content: seq<Byte>)

  datatype Event =
    | OnMessage(finRsvOpcode: Byte, content: seq<Byte>)
    | OnPing(finRsvOpcode: Byte, pong: seq<Byte>)
    | OnPong
    | OnClose(status: int, reason: seq<Byte>)
    | OnReading(reading: Reading)  // an error in place of a frame

  function Pending(fragmented: Option<InMessage>): nat {
    match fragmented
    case None => 0
    case Some(m) => m.length
  }

  // The frame belongs to a fragmented message, or starts one.
  predicate IsFragment(f: Incoming) {
    f.finRsvOpcode < 128 || f.finRsvOpcode % 16 == 0
  }

  // The message that a frame adds to, with the frame's payload.
  function Appended(fragmented: Option<InMessage>, f: Incoming): InMessage {
    if !IsFragment(f) then InMessage(f.finRsvOpcode, |f.payload|, f.payload)
    else
      match fragmented
      case None =>
        InMessage(if f.finRsvOpcode < 128 then f.finRsvOpcode + 128 else f.finRsvOpcode, |f.payload|, f.payload)
      case Some(m) => m.(length := (m.length + |f.payload|) % SIZES, content := m.content + f.payload)
  }

  // What a frame does: the message being put together afterwards, what is reported, and whether
  // reading goes on.
  datatype Handled = Handled(fragmented: Option<InMessage>, events: seq<Event>, goesOn: bool)

  function Handle(fragmented: Option<InMessage>, f: Incoming): Handled {
    var m := Appended(fragmented, f);
    var kept := if IsFragment(f) then Some(m) else fragmented;
    var opcode := f.finRsvOpcode % 16;
    if opcode == 8 then
      if |f.payload| >= 2 && |m.content| >= 2 then
        Handled(kept, [OnClose(256 * (m.content[0] as int) + m.content[1] as int, m.content[2..])], false)
      else Handled(kept, [OnClose(0, m.content)], false)
    else if opcode == 9 then Handled(kept, [OnPing((f.finRsvOpcode + 1) % 256, m.content)], true)
    else if opcode == 10 then Handled(kept, [OnPong], true)
    else if f.finRsvOpcode < 128 then Handled(kept, [], true)
    else Handled(None, [OnMessage(m.finRsvOpcode, m.content)], true)
  }

  // Everything that is reported for an input.
  function Served(input: seq<Byte>, fragmented: Option<InMessage>, max: nat): seq<Event>
    decreases |input|
  {
    match Read(input, Pending(fragmented), max)
    case Got(f, rest) =>
      ReadIsShorter(input, Pending(fragmented), max);
      var h := Handle(fragmented, f);
      h.events + if h.goesOn then Served(rest, h.fragmented, max) else []
    case reading => [OnReading(reading)]
  }

  lemma ReadIsShorter(input: seq<Byte>, pending: nat, max: nat)
    ensures Read(input, pending, max).Got? ==> |Read(input, pending, max).rest| < |input|
  {
  }

  // ----- The code: send -----

  // The loop that puts the bytes of a length, from the highest down.
  method PutLength(before: seq<Byte>, length: nat, numBytes: nat) returns (out: seq<Byte>)
    ensures out == before + BigEndian(length, numBytes)
  {
    out := before;
    var c := numBytes;
    while c > 0
      invariant 0 <= c <= numBytes
      invariant out == before + BigEndian(ShiftRight(length, c), numBytes - c)
    {
      c := c - 1;
      out := out + [ShiftRight(length, c) % 256];
    }
  }

  // The bytes in front of the mask.
  method PutHeader(length: nat, finRsvOpcode: Byte) returns (out: seq<Byte>)
    requires length < SIZES
    ensures out == [finRsvOpcode] + LengthField(length)
  {
    hide BigEndian;
    out := [finRsvOpcode];
    if length >= 126 {
      var numBytes;
      if length > 0xffff {
        numBytes := 8;
        out := out + [127 + 128];
      } else {
        numBytes := 2;
        out := out + [126 + 128];
      }
      out := PutLength(out, length, numBytes);
    } else {
      out := out + [length + 128];
    }
  }

  method Send(payload: seq<Byte>, mask: seq<Byte>, finRsvOpcode: Byte) returns (out: seq<Byte>)
    requires |mask| == 4 && |payload| < SIZES
    ensures out == Frame(finRsvOpcode, mask, payload)
  {
    hide LengthField, Xor;
    var length := |payload|;
    out := PutHeader(length, finRsvOpcode);
    ghost var header := out;
    for c := 0 to 4
      invariant out == header + mask[..c]
    {
      out := out + [mask[c]];
    }
    assert mask[..4] == mask;
    for c := 0 to length
      invariant out == header + mask + Masked(payload, mask)[..c]
    {
      out := out + [Xor(payload[c], mask[c % 4])];
    }
    assert Masked(payload, mask)[..length] == Masked(payload, mask);
  }

  // ----- The code: read_message -----

  class Connection {
    const max: nat
    var input: seq<Byte>
    var fragmented: Option<InMessage>
    var events: seq<Event>

    constructor (input: seq<Byte>, max: nat)
      ensures this.input == input && this.max == max && fragmented == None && events == []
    {
      this.input, this.max, fragmented, events := input, max, None, [];
    }

    // The loop over the bytes of an extended length.
    method ReadLength(numBytes: nat) returns (length: nat)
      requires numBytes <= |input|
      modifies this`input
      ensures length == Value(old(input)[..numBytes]) && input == old(input)[numBytes..]
    {
      length := 0;
      ShiftLeftZero(numBytes);
      ghost var bytes := input[..numBytes];
      for c := 0 to numBytes
        invariant input == old(input)[c..]
        invariant length == ShiftLeft(Value(bytes[..c]), numBytes - c)
      {
        NextLengthByte(bytes, c);
        length := length + ShiftLeft(input[0], numBytes - 1 - c);
        input := input[1..];
      }
      assert bytes[..numBytes] == bytes;
    }

    // The mask and the loop that unmasks the payload, on a stream of the bytes transferred.
    method ReadPayload(bytes: seq<Byte>, length: nat) returns (payload: seq<Byte>)
      requires |bytes| == 4 + length || |bytes| < 4
      ensures payload == Unmasked(bytes, length)
    {
      hide Xor;
      var n := if |bytes| < 4 then |bytes| else 4;
      var mask := bytes[..n] + [0, 0, 0, 0][n..];
      var stream := bytes[n..];
      payload := [];
      ghost var masked := Unmasked(bytes, length);
      assert |bytes| >= 4 ==> mask == bytes[..4];
      for c := 0 to length
        invariant stream == if |bytes| >= 4 then bytes[4 + c..] else []
        invariant payload == masked[..c]
      {
        var chr := 255;
        if stream != [] {
          chr := stream[0];
          stream := stream[1..];
        }
        payload := payload + [Xor(chr, mask[c % 4])];
      }
      assert masked[..length] == masked;
    }

    // The message that gets the payload: a new one, or the one being put together.
    method Append(finRsvOpcode: Byte, payload: seq<Byte>) returns (inMessage: InMessage)
      requires |payload| < SIZES
      modifies this`fragmented
      ensures inMessage == Appended(old(fragmented), Incoming(finRsvOpcode, payload))
      ensures fragmented == if IsFragment(Incoming(finRsvOpcode, payload)) then Some(inMessage) else old(fragmented)
    {
      var length := |payload|;
      if finRsvOpcode < 128 || finRsvOpcode % 16 == 0 {
        if fragmented.None? {
          inMessage := InMessage(finRsvOpcode, length, []);
          if finRsvOpcode < 128 {
            inMessage := inMessage.(finRsvOpcode := finRsvOpcode + 128);
          }
          assert [] + payload == payload;
        } else {
          inMessage := fragmented.value.(length := (fragmented.value.length + length) % SIZES);
        }
        inMessage := inMessage.(content := inMessage.content + payload);
        fragmented := Some(inMessage);
      } else {
        inMessage := InMessage(finRsvOpcode, length, payload);
      }
    }

    // What is done with a frame's payload.
    method HandleContent(finRsvOpcode: Byte, payload: seq<Byte>) returns (goesOn: bool)
      requires |payload| < SIZES
      modifies this`fragmented, this`events
      ensures var h := Handle(old(fragmented), Incoming(finRsvOpcode, payload));
              fragmented == h.fragmented && events == old(events) + h.events && goesOn == h.goesOn
    {
      AppendedIsLonger(fragmented, Incoming(finRsvOpcode, payload));
      var inMessage := Append(finRsvOpcode, payload);
      hide Appended;
      goesOn := true;
      if finRsvOpcode % 16 == 8 {
        var status, reason := 0, inMessage.content;
        if |payload| >= 2 {
          var byte1: int, byte2: int := reason[0], reason[1];
          reason := reason[2..];
          status := 256 * byte1 + byte2;
        }
        events := events + [OnClose(status, reason)];
        goesOn := false;
      } else if finRsvOpcode % 16 == 9 {
        events := events + [OnPing((finRsvOpcode + 1) % 256, inMessage.content)];
      } else if finRsvOpcode % 16 == 10 {
        events := events + [OnPong];
      } else if finRsvOpcode < 128 {
      } else {
        events := events + [OnMessage(inMessage.finRsvOpcode, inMessage.content)];
        fragmented := None;
      }
    }

    method Fail(reading: Reading) returns (goesOn: bool)
      modifies this`events
      ensures events == old(events) + [OnReading(reading)] && !goesOn
    {
      events := events + [OnReading(reading)];
      goesOn := false;
    }

    // read_message_content.
    method ReadMessageContent(length: nat, finRsvOpcode: Byte) returns (goesOn: bool)
      requires length < SIZES
      modifies this
      ensures match ReadContent(finRsvOpcode, length, old(input), Pending(old(fragmented)), max)
              case Got(f, rest) =>
                var h := Handle(old(fragmented), f);
                && input == rest && fragmented == h.fragmented
                && events == old(events) + h.events && goesOn == h.goesOn
              case reading => !goesOn && events == old(events) + [OnReading(reading)]
    {
      hide Handle, Unmasked;
      if (length + (if fragmented.Some? then fragmented.value.length else 0)) % SIZES > max {
        goesOn := Fail(TooBig);
      } else if |input| < (4 + length) % SIZES {
        goesOn := Fail(Short);
      } else {
        var bytes := input[..(4 + length) % SIZES];
        input := input[(4 + length) % SIZES..];
        var payload := ReadPayload(bytes, length);
        goesOn := HandleContent(finRsvOpcode, payload);
      }
    }

    // read_message, for one frame.
    method ReadMessage() returns (goesOn: bool)
      modifies this
      ensures match Read(old(input), Pending(old(fragmented)), max)
              case Got(f, rest) =>
                var h := Handle(old(fragmented), f);
                && input == rest && fragmented == h.fragmented
                && events == old(events) + h.events && goesOn == h.goesOn
              case reading => !goesOn && events == old(events) + [OnReading(reading)]
    {
      hide Handle, Masked, Value, ReadContent;
      if |input| < 2 {
        goesOn := Fail(Short);
        return;
      }
      var firstBytes := input[..2];
      input := input[2..];
      var finRsvOpcode := firstBytes[0];
      if firstBytes[1] < 128 {
        goesOn := Fail(NotMasked);
        return;
      }
      var length: nat := firstBytes[1] % 128;
      var numBytes := if length == 126 then 2 else if length == 127 then 8 else 0;
      if |input| < numBytes {
        goesOn := Fail(Short);
        return;
      }
      ghost var declared := Declared(old(input));
      assert input[..numBytes] == old(input)[2..2 + numBytes] && input[numBytes..] == old(input)[2 + numBytes..];
      if numBytes > 0 {
        length := ReadLength(numBytes);
      }
      assert length == declared;
      goesOn := ReadMessageContent(length, finRsvOpcode);
    }

    // The chain of calls of read_message.
    method ReadMessages()
      modifies this
      ensures events == old(events) + Served(old(input), old(fragmented), max)
    {
      hide Read, Handle, Served;
      var goesOn := true;
      while goesOn
        invariant events + (if goesOn then Served(input, fragmented, max) else [])
               == old(events) + Served(old(input), old(fragmented), max)
        decreases goesOn, |input|
      {
        ghost var input', fragmented', events' := input, fragmented, events;
        ReadIsShorter(input, Pending(fragmented), max);
        goesOn := ReadMessage();
        ServedStep(input', fragmented', max);
        Associative(events', events[|events'|..], if goesOn then Served(input, fragmented, max) else []);
      }
    }
  }

  lemma AppendedIsLonger(fragmented: Option<InMessage>, f: Incoming)
    ensures |Appended(fragmented, f).content| >= |f.payload|
  {
  }

  // One more frame of an input.
  lemma ServedStep(input: seq<Byte>, fragmented: Option<InMessage>, max: nat)
    ensures Served(input, fragmented, max) ==
            match Read(input, Pending(fragmented), max)
            case Got(f, rest) =>
              var h := Handle(fragmented, f);
              h.events + if h.goesOn then Served(rest, h.fragmented, max) else []
            case reading => [OnReading(reading)]
  {
    hide Read, Handle;
    ReadIsShorter(input, Pending(fragmented), max);
  }

  lemma NextLengthByte(bytes: seq<Byte>, c: nat)
    requires c < |bytes|
    ensures ShiftLeft(Value(bytes[..c + 1]), |bytes| - c - 1)
         == ShiftLeft(Value(bytes[..c]), |bytes| - c) + ShiftLeft(bytes[c], |bytes| - 1 - c)
  {
    var n := |bytes| - c - 1;
    assert bytes[..c + 1][..c] == bytes[..c];
    ShiftLeftSum(256 * Value(bytes[..c]), bytes[c], n);
    ShiftLeftOnce(Value(bytes[..c]), n);
  }

  lemma {:induction false} ShiftLeftZero(n: nat)
    ensures ShiftLeft(0, n) == 0
  {
    if n == 0 {
    } else {
      ShiftLeftZero(n - 1);
    }
  }

  lemma {:induction false} ShiftLeftSum(a: nat, b: nat, n: nat)
    ensures ShiftLeft(a + b, n) == ShiftLeft(a, n) + ShiftLeft(b, n)
  {
    if n == 0 {
    } else {
      ShiftLeftSum(a, b, n - 1);
    }
  }

  lemma {:induction false} ShiftLeftOnce(a: nat, n: nat)
    ensures ShiftLeft(256 * a, n) == ShiftLeft(a, n + 1)
  {
    if n == 0 {
    } else {
      ShiftLeftOnce(a, n - 1);
    }
  }

  // ----- What the server reads of what the client sends -----

  lemma {:induction false} XorBitsTwice(a: nat, b: nat, bits: nat)
    requires a < TwoTo(bits)
    ensures XorBits(XorBits(a, b, bits), b, bits) == a
  {
    if bits == 0 {
    } else {
      XorBitsTwice(a / 2, b / 2, bits - 1);
      var x := XorBits(a / 2, b / 2, bits - 1);
      assert XorBits(a, b, bits) / 2 == x && XorBits(a, b, bits) % 2 == if a % 2 == b % 2 then 0 else 1;
    }
  }

  lemma XorTwice(a: Byte, b: Byte)
    ensures Xor(Xor(a, b), b) == a
  {
    assert TwoTo(4) == 16;
    XorBitsTwice(a, b, 8);
  }

  lemma MaskedTwice(payload: seq<Byte>, mask: seq<Byte>)
    requires |mask| == 4
    ensures Masked(Masked(payload, mask), mask) == payload
  {
    hide Xor;
    var twice := Masked(Masked(payload, mask), mask);
    forall i | 0 <= i < |payload|
      ensures twice[i] == payload[i]
    {
      XorTwice(payload[i], mask[i % 4]);
    }
  }

  lemma {:induction false} ValueOfBigEndian(n: nat, k: nat)
    requires n < ShiftLeft(1, k)
    ensures Value(BigEndian(n, k)) == n
  {
    if k == 0 {
    } else {
      var front := BigEndian(n / 256, k - 1);
      ValueOfBigEndian(n / 256, k - 1);
      assert (front + [n % 256])[..k - 1] == front;
    }
  }

  // The length that the server finds in the header of a frame.
  lemma LengthIsRead(first: Byte, length: nat, after: seq<Byte>)
    requires length < SIZES
    ensures var header := [first] + LengthField(length) + after;
            var k := Extended(header[1]);
            && header[1] >= 128 && |LengthField(length)| == 1 + k
            && header[2 + k..] == after && Declared(header) == length
  {
    Ranges();
    hide Value, BigEndian, ShiftLeft;
    var header := [first] + LengthField(length) + after;
    if length < 126 {
    } else if length <= 0xffff {
      ValueOfBigEndian(length, 2);
      assert header[2..4] == BigEndian(length, 2);
    } else {
      ValueOfBigEndian(length, 8);
      assert header[2..10] == BigEndian(length, 8);
    }
  }

  // A header for this length, and what follows it.
  lemma HeaderIsRead(first: Byte, length: nat, after: seq<Byte>, pending: nat, max: nat)
    requires length < SIZES
    ensures Read([first] + LengthField(length) + after, pending, max) == ReadContent(first, length, after, pending, max)
  {
    hide LengthField, Extended, Declared, ReadContent;
    LengthIsRead(first, length, after);
  }

  // A frame of the client in front of any other bytes: the server rejects it if the wrapped sum
  // exceeds the limit, and otherwise gets exactly its first byte and payload and what follows it, if
  // and only if the number of bytes to transfer does not wrap around.
  lemma FrameIsRead(f: Incoming, mask: seq<Byte>, after: seq<Byte>, pending: nat, max: nat)
    requires |mask| == 4 && |f.payload| < SIZES
    ensures var reading := Read(Frame(f.finRsvOpcode, mask, f.payload) + after, pending, max);
            && (reading == TooBig <==> (|f.payload| + pending) % SIZES > max)
            && (reading == Got(f, after) <==> (|f.payload| + pending) % SIZES <= max && 4 + |f.payload| < SIZES)
  {
    hide *;
    FrameParts(f, mask, after);
    HeaderIsRead(f.finRsvOpcode, |f.payload|, mask + Masked(f.payload, mask) + after, pending, max);
    ContentIsRead(f, mask, after, pending, max);
  }

  // Without any wrapping.
  lemma SmallFrameIsRead(f: Incoming, mask: seq<Byte>, after: seq<Byte>, pending: nat, max: nat)
    requires |mask| == 4 && |f.payload| + pending + 4 < SIZES
    ensures Read(Frame(f.finRsvOpcode, mask, f.payload) + after, pending, max)
         == if |f.payload| + pending > max then TooBig else Got(f, after)
  {
    hide *;
    FrameIsRead(f, mask, after, pending, max);
    assert (|f.payload| + pending) % SIZES == |f.payload| + pending;
  }

  lemma FrameParts(f: Incoming, mask: seq<Byte>, after: seq<Byte>)
    requires |mask| == 4
    ensures Frame(f.finRsvOpcode, mask, f.payload) + after
         == [f.finRsvOpcode] + LengthField(|f.payload|) + (mask + Masked(f.payload, mask) + after)
  {
    hide LengthField, Masked;
  }

  lemma ContentIsRead(f: Incoming, mask: seq<Byte>, after: seq<Byte>, pending: nat, max: nat)
    requires |mask| == 4 && |f.payload| < SIZES
    ensures var content := mask + Masked(f.payload, mask) + after;
            var reading := ReadContent(f.finRsvOpcode, |f.payload|, content, pending, max);
            && (reading == TooBig <==> (|f.payload| + pending) % SIZES > max)
            && (reading == Got(f, after) <==> (|f.payload| + pending) % SIZES <= max && 4 + |f.payload| < SIZES)
  {
    var content := mask + Masked(f.payload, mask) + after;
    assert |content| == 4 + |f.payload| + |after|;
    ContentIsUnmasked(f.payload, mask, after);
    TransferWraps(|f.payload|);
    hide Masked, Unmasked, Transferred;
    TransferIsTaken(f.finRsvOpcode, |f.payload|, content, pending, max);
    hide ReadContent;
  }

  // With enough input, the rest is what is not transferred.
  lemma TransferIsTaken(finRsvOpcode: Byte, length: nat, input: seq<Byte>, pending: nat, max: nat)
    requires length < SIZES && |input| >= Transferred(length)
    ensures var n := Transferred(length);
            ReadContent(finRsvOpcode, length, input, pending, max)
            == if (length + pending) % SIZES > max then TooBig
               else Got(Incoming(finRsvOpcode, Unmasked(input[..n], length)), input[n..])
    ensures |input[Transferred(length)..]| == |input| - Transferred(length)
  {
    hide Unmasked, Transferred;
  }

  lemma TransferWraps(length: nat)
    requires length < SIZES
    ensures Transferred(length) == if 4 + length < SIZES then 4 + length else 4 + length - SIZES
  {
  }

  lemma ContentIsUnmasked(payload: seq<Byte>, mask: seq<Byte>, after: seq<Byte>)
    requires |mask| == 4
    ensures var content := mask + Masked(payload, mask) + after;
            && Unmasked(content[..4 + |payload|], |payload|) == payload && content[4 + |payload|..] == after
  {
    MaskedTwice(payload, mask);
    hide Masked;
    var bytes := (mask + Masked(payload, mask) + after)[..4 + |payload|];
    assert bytes[..4] == mask && bytes[4..] == Masked(payload, mask);
  }

  // ----- Sequences of frames -----

  ghost predicate AreMasks(masks: seq<seq<Byte>>) {
    forall i :: 0 <= i < |masks| ==> |masks[i]| == 4
  }

  ghost function Sent(frames: seq<Incoming>, masks: seq<seq<Byte>>): seq<Byte>
    requires |masks| == |frames| && AreMasks(masks)
  {
    if frames == [] then []
    else Frame(frames[0].finRsvOpcode, masks[0], frames[0].payload) + Sent(frames[1..], masks[1..])
  }

  function Total(frames: seq<Incoming>): nat {
    if frames == [] then 0 else |frames[0].payload| + Total(frames[1..])
  }

  function HandleAll(fragmented: Option<InMessage>, frames: seq<Incoming>): Handled
    decreases |frames|
  {
    if frames == [] then Handled(fragmented, [], true)
    else
      var h := Handle(fragmented, frames[0]);
      if !h.goesOn then h
      else
        var rest := HandleAll(h.fragmented, frames[1..]);
        rest.(events := h.events + rest.events)
  }

  // No frame, with what the unfinished message has already, exceeds the limit. Control frames
  // count too.
  predicate Fits(fragmented: Option<InMessage>, frames: seq<Incoming>, max: nat)
    decreases |frames|
  {
    frames == [] ||
    (&& |frames[0].payload| + Pending(fragmented) <= max
     && var h := Handle(fragmented, frames[0]);
        h.goesOn ==> Fits(h.fragmented, frames[1..], max))
  }

  lemma PendingAfter(fragmented: Option<InMessage>, f: Incoming)
    requires Pending(fragmented) + |f.payload| < SIZES
    ensures Pending(Handle(fragmented, f).fragmented) <= Pending(fragmented) + |f.payload|
  {
  }

  // Frames sent with any masks are handled one after the other as long as they fit, and the first
  // one that does not ends the reading.
  lemma {:induction false} FramesAreServed(frames: seq<Incoming>, masks: seq<seq<Byte>>,
        fragmented: Option<InMessage>, max: nat)
    requires |masks| == |frames| && AreMasks(masks) && Pending(fragmented) + Total(frames) + 4 < SIZES
    ensures var served, h := Served(Sent(frames, masks), fragmented, max), HandleAll(fragmented, frames);
            && served != []
            && (Fits(fragmented, frames, max) ==> served == h.events + if h.goesOn then [OnReading(Short)] else [])
            && (!Fits(fragmented, frames, max) ==> served[|served| - 1] == OnReading(TooBig))
    decreases |frames|
  {
    hide *;
    ServedStep(Sent(frames, masks), fragmented, max);
    if frames == [] {
      NoFrames(masks, fragmented, max);
      NothingIsRead(Pending(fragmented), max);
    } else {
      FirstFrame(frames, masks, fragmented, max);
      var f, rest := frames[0], Sent(frames[1..], masks[1..]);
      SmallFrameIsRead(f, masks[0], rest, Pending(fragmented), max);
      PendingAfter(fragmented, f);
      HandledReports(fragmented, f);
      var h := Handle(fragmented, f);
      if h.goesOn {
        FramesAreServed(frames[1..], masks[1..], h.fragmented, max);
        ServedOn(h.events, Served(rest, h.fragmented, max), HandleAll(h.fragmented, frames[1..]));
      } else {
        assert h.events + [] == h.events;
      }
    }
  }

  lemma NoFrames(masks: seq<seq<Byte>>, fragmented: Option<InMessage>, max: nat)
    requires masks == []
    ensures Sent([], masks) == [] && Fits(fragmented, [], max)
    ensures HandleAll(fragmented, []) == Handled(fragmented, [], true)
  {
  }

  lemma FirstFrame(frames: seq<Incoming>, masks: seq<seq<Byte>>, fragmented: Option<InMessage>, max: nat)
    requires frames != [] && |masks| == |frames| && AreMasks(masks)
    ensures |masks[0]| == 4 && AreMasks(masks[1..])
    ensures Sent(frames, masks)
         == Frame(frames[0].finRsvOpcode, masks[0], frames[0].payload) + Sent(frames[1..], masks[1..])
    ensures Total(frames) == |frames[0].payload| + Total(frames[1..])
    ensures var h := Handle(fragmented, frames[0]);
            && (!h.goesOn ==> HandleAll(fragmented, frames) == h)
            && (h.goesOn ==> var r := HandleAll(h.fragmented, frames[1..]);
                             HandleAll(fragmented, frames) == r.(events := h.events + r.events))
    ensures Fits(fragmented, frames, max) <==>
            && |frames[0].payload| + Pending(fragmented) <= max
            && var h := Handle(fragmented, frames[0]);
               h.goesOn ==> Fits(h.fragmented, frames[1..], max)
  {
    hide Handle, Frame;
  }

  lemma NothingIsRead(pending: nat, max: nat)
    ensures Read([], pending, max) == Short
  {
  }

  lemma HandledReports(fragmented: Option<InMessage>, f: Incoming)
    ensures !Handle(fragmented, f).goesOn ==> Handle(fragmented, f).events != []
  {
  }

  lemma ServedOn(events: seq<Event>, served: seq<Event>, h: Handled)
    requires served != []
    ensures events + served != [] && (events + served)[|events + served| - 1] == served[|served| - 1]
    ensures served == h.events + (if h.goesOn then [OnReading(Short)] else []) ==>
              events + served == events + h.events + if h.goesOn then [OnReading(Short)] else []
  {
  }

  // ----- Messages -----

  // A ping or pong, sent whole (section 5.5).
  datatype Control = Control(finRsvOpcode: Byte, payload: seq<Byte>)

  // Part of a message, and the control frames sent between it and the next part.
  datatype Part = Part(payload: seq<Byte>, controls: seq<Control>)

  // A message cut into any number of parts (section 5.4). The byte is that of a message sent whole.
  datatype Outgoing = Outgoing(finRsvOpcode: Byte, parts: seq<Part>)

  ghost predicate ValidControl(c: Control) {
    c.finRsvOpcode >= 128 && (c.finRsvOpcode % 16 == 9 || c.finRsvOpcode % 16 == 10)
  }

  ghost predicate ValidParts(parts: seq<Part>) {
    forall i, j :: 0 <= i < |parts| && 0 <= j < |parts[i].controls| ==> ValidControl(parts[i].controls[j])
  }

  // The opcode is that of data, not of a continuation or of a control frame.
  ghost predicate IsData(finRsvOpcode: Byte) {
    finRsvOpcode >= 128 && finRsvOpcode % 16 !in {0, 8, 9, 10}
  }

  ghost predicate ValidMessages(messages: seq<Outgoing>) {
    forall i :: 0 <= i < |messages| ==>
      IsData(messages[i].finRsvOpcode) && messages[i].parts != [] && ValidParts(messages[i].parts)
  }

  function ControlFrames(controls: seq<Control>): seq<Incoming> {
    if controls == [] then []
    else [Incoming(controls[0].finRsvOpcode, controls[0].payload)] + ControlFrames(controls[1..])
  }

  // The first frame carries the opcode, the others are continuations, and the last one is final.
  function PartFrames(opcode: Byte, parts: seq<Part>): seq<Incoming>
    requires opcode < 128
  {
    if parts == [] then []
    else
      [Incoming(if |parts| == 1 then opcode + 128 else opcode, parts[0].payload)]
      + (ControlFrames(parts[0].controls) + PartFrames(0, parts[1..]))
  }

  function MessageFrames(messages: seq<Outgoing>): seq<Incoming>
    requires forall i :: 0 <= i < |messages| ==> messages[i].finRsvOpcode >= 128
  {
    if messages == [] then []
    else PartFrames(messages[0].finRsvOpcode - 128, messages[0].parts) + MessageFrames(messages[1..])
  }

  // A ping is answered with its payload, and nothing else comes of a control frame.
  function ControlEvents(controls: seq<Control>): seq<Event> {
    if controls == [] then []
    else
      [if controls[0].finRsvOpcode % 16 == 9 then OnPing((controls[0].finRsvOpcode + 1) % 256, controls[0].payload)
       else OnPong]
      + ControlEvents(controls[1..])
  }

  // The message is reported once, whole, after its last part.
  function PartEvents(finRsvOpcode: Byte, before: seq<Byte>, parts: seq<Part>): seq<Event>
    decreases |parts|
  {
    if parts == [] then []
    else
      var content := before + parts[0].payload;
      (if |parts| == 1 then [OnMessage(finRsvOpcode, content)] else [])
      + (ControlEvents(parts[0].controls) + PartEvents(finRsvOpcode, content, parts[1..]))
  }

  function MessageEvents(messages: seq<Outgoing>): seq<Event> {
    if messages == [] then []
    else PartEvents(messages[0].finRsvOpcode, [], messages[0].parts) + MessageEvents(messages[1..])
  }

  lemma HandleFirst(fragmented: Option<InMessage>, f: Incoming, rest: seq<Incoming>)
    requires Handle(fragmented, f).goesOn
    ensures var h := Handle(fragmented, f);
            var r := HandleAll(h.fragmented, rest);
            HandleAll(fragmented, [f] + rest) == r.(events := h.events + r.events)
  {
    hide Handle;
    assert ([f] + rest)[1..] == rest;
  }

  lemma {:induction false} HandleConcat(fragmented: Option<InMessage>, a: seq<Incoming>, b: seq<Incoming>)
    requires HandleAll(fragmented, a).goesOn
    ensures var h := HandleAll(fragmented, a);
            var r := HandleAll(h.fragmented, b);
            HandleAll(fragmented, a + b) == r.(events := h.events + r.events)
    decreases |a|
  {
    hide Handle;
    if a == [] {
      assert a + b == b;
    } else {
      assert (a + b)[1..] == a[1..] + b;
      var h := Handle(fragmented, a[0]);
      HandleConcat(h.fragmented, a[1..], b);
      Associative(h.events, HandleAll(h.fragmented, a[1..]).events,
                  HandleAll(HandleAll(fragmented, a).fragmented, b).events);
    }
  }

  // Control frames leave an unfinished message alone.
  lemma {:induction false} ControlsAreHandled(fragmented: Option<InMessage>, controls: seq<Control>)
    requires forall i :: 0 <= i < |controls| ==> ValidControl(controls[i])
    ensures HandleAll(fragmented, ControlFrames(controls)) == Handled(fragmented, ControlEvents(controls), true)
  {
    if controls == [] {
    } else {
      var f := Incoming(controls[0].finRsvOpcode, controls[0].payload);
      ControlsAreHandled(fragmented, controls[1..]);
      assert ValidControl(controls[0]);
      assert Handle(fragmented, f) == Handled(fragmented, ControlEvents(controls)[..1], true);
      HandleFirst(fragmented, f, ControlFrames(controls[1..]));
    }
  }

  // The part of a message whose other parts are in `fragmented`, if there are any.
  ghost predicate Unfinished(fragmented: Option<InMessage>, finRsvOpcode: Byte, before: seq<Byte>) {
    match fragmented
    case None => before == []
    case Some(m) => m.finRsvOpcode == finRsvOpcode && m.content == before
  }

  // The opcode byte of the next part: that of the message only if there is no part yet.
  ghost function NextOpcode(fragmented: Option<InMessage>, finRsvOpcode: Byte): Byte
    requires finRsvOpcode >= 128
  {
    if fragmented.None? then finRsvOpcode - 128 else 0
  }

  lemma PartIsHandled(fragmented: Option<InMessage>, finRsvOpcode: Byte, before: seq<Byte>,
        payload: seq<Byte>, last: bool)
    requires IsData(finRsvOpcode) && Unfinished(fragmented, finRsvOpcode, before)
    ensures var opcode := NextOpcode(fragmented, finRsvOpcode);
            var h := Handle(fragmented, Incoming(if last then opcode + 128 else opcode, payload));
            && h.goesOn
            && h.events == (if last then [OnMessage(finRsvOpcode, before + payload)] else [])
            && (last ==> h.fragmented == None)
            && (!last ==> h.fragmented.Some? && Unfinished(h.fragmented, finRsvOpcode, before + payload))
  {
    hide Handle;
    if fragmented.None? {
      assert [] + payload == payload;
      FirstPart(finRsvOpcode, payload, last);
    } else {
      NextPart(fragmented.value, payload, last);
    }
  }

  lemma FirstPart(finRsvOpcode: Byte, payload: seq<Byte>, last: bool)
    requires IsData(finRsvOpcode)
    ensures Handle(None, Incoming(if last then finRsvOpcode else finRsvOpcode - 128, payload))
         == if last then Handled(None, [OnMessage(finRsvOpcode, payload)], true)
            else Handled(Some(InMessage(finRsvOpcode, |payload|, payload)), [], true)
  {
  }

  lemma NextPart(m: InMessage, payload: seq<Byte>, last: bool)
    ensures Handle(Some(m), Incoming(if last then 128 else 0, payload))
         == if last then Handled(None, [OnMessage(m.finRsvOpcode, m.content + payload)], true)
            else Handled(Some(m.(length := (m.length + |payload|) % SIZES, content := m.content + payload)), [], true)
  {
  }

  // The length that is checked next.
  lemma PartLength(fragmented: Option<InMessage>, f: Incoming)
    requires f.finRsvOpcode % 16 !in {8, 9, 10} && Pending(fragmented) + |f.payload| < SIZES
    ensures Pending(Handle(fragmented, f).fragmented)
         == if f.finRsvOpcode >= 128 then 0 else Pending(fragmented) + |f.payload|
  {
  }

  lemma {:induction false} PartsAreHandled(fragmented: Option<InMessage>, finRsvOpcode: Byte, before: seq<Byte>,
        parts: seq<Part>)
    requires IsData(finRsvOpcode) && Unfinished(fragmented, finRsvOpcode, before) && parts != [] && ValidParts(parts)
    ensures HandleAll(fragmented, PartFrames(NextOpcode(fragmented, finRsvOpcode), parts))
         == Handled(None, PartEvents(finRsvOpcode, before, parts), true)
    decreases |parts|
  {
    var part, rest, last := parts[0], parts[1..], |parts| == 1;
    var opcode := NextOpcode(fragmented, finRsvOpcode);
    var f := Incoming(if last then opcode + 128 else opcode, part.payload);
    PartIsHandled(fragmented, finRsvOpcode, before, part.payload, last);
    assert forall j :: 0 <= j < |part.controls| ==> ValidControl(parts[0].controls[j]);
    assert forall i :: 0 <= i < |rest| ==> rest[i] == parts[i + 1];
    hide Handle, Unfinished, ValidControl, IsData;
    var h := Handle(fragmented, f);
    ControlsAreHandled(h.fragmented, part.controls);
    var controls := ControlFrames(part.controls);
    if last {
      assert PartFrames(0, rest) == [] && PartEvents(finRsvOpcode, before + part.payload, rest) == [];
      assert controls + [] == controls && ControlEvents(part.controls) + [] == ControlEvents(part.controls);
    } else {
      PartsAreHandled(h.fragmented, finRsvOpcode, before + part.payload, rest);
      HandleConcat(h.fragmented, controls, PartFrames(0, rest));
    }
    HandleFirst(fragmented, f, controls + PartFrames(0, rest));
  }

  // Every message that is sent in parts, with pings and pongs in between, is reported once and
  // whole, in order, and nothing is left over.
  lemma {:induction false} MessagesArePutTogether(messages: seq<Outgoing>)
    requires ValidMessages(messages)
    ensures HandleAll(None, MessageFrames(messages)) == Handled(None, MessageEvents(messages), true)
  {
    if messages == [] {
    } else {
      var m, rest := messages[0], messages[1..];
      assert forall i :: 0 <= i < |rest| ==> rest[i] == messages[i + 1];
      MessagesArePutTogether(rest);
      PartsAreHandled(None, m.finRsvOpcode, [], m.parts);
      HandleConcat(None, PartFrames(m.finRsvOpcode - 128, m.parts), MessageFrames(rest));
    }
  }

  // The payloads of the parts, one after the other.
  function Joined(parts: seq<Part>): seq<Byte> {
    if parts == [] then [] else parts[0].payload + Joined(parts[1..])
  }

  function OnlyMessages(events: seq<Event>): seq<Event> {
    if events == [] then []
    else (if events[0].OnMessage? then [events[0]] else []) + OnlyMessages(events[1..])
  }

  lemma {:induction false} OnlyMessagesConcat(a: seq<Event>, b: seq<Event>)
    ensures OnlyMessages(a + b) == OnlyMessages(a) + OnlyMessages(b)
  {
    if a == [] {
      assert a + b == b;
    } else {
      OnlyMessagesConcat(a[1..], b);
      assert (a + b)[1..] == a[1..] + b;
    }
  }

  lemma {:induction false} NoMessageOfControls(controls: seq<Control>)
    ensures OnlyMessages(ControlEvents(controls)) == []
  {
    if controls == [] {
    } else {
      NoMessageOfControls(controls[1..]);
      assert ControlEvents(controls)[1..] == ControlEvents(controls[1..]);
    }
  }

  lemma {:induction false} OneMessageOfParts(finRsvOpcode: Byte, before: seq<Byte>, parts: seq<Part>)
    requires parts != []
    ensures OnlyMessages(PartEvents(finRsvOpcode, before, parts)) == [OnMessage(finRsvOpcode, before + Joined(parts))]
    decreases |parts|
  {
    var content, rest := before + parts[0].payload, parts[1..];
    var first := if |parts| == 1 then [OnMessage(finRsvOpcode, content)] else [];
    NoMessageOfControls(parts[0].controls);
    OnlyMessagesConcat(first, ControlEvents(parts[0].controls) + PartEvents(finRsvOpcode, content, rest));
    OnlyMessagesConcat(ControlEvents(parts[0].controls), PartEvents(finRsvOpcode, content, rest));
    Associative(before, parts[0].payload, Joined(rest));
    hide ControlEvents;
    if rest == [] {
      assert content + [] == content && OnlyMessages(first) == first;
    } else {
      OneMessageOfParts(finRsvOpcode, content, rest);
    }
  }

  // Of the messages, exactly one report for each comes of it all, with the payloads of its parts in order.
  lemma {:induction false} OneReportEach(messages: seq<Outgoing>)
    requires ValidMessages(messages)
    ensures var reports := OnlyMessages(MessageEvents(messages));
            && |reports| == |messages|
            && forall i :: 0 <= i < |messages| ==>
                 reports[i] == OnMessage(messages[i].finRsvOpcode, Joined(messages[i].parts))
  {
    hide PartEvents, Joined;
    if messages == [] {
    } else {
      var m, rest := messages[0], messages[1..];
      assert forall i :: 0 <= i < |rest| ==> rest[i] == messages[i + 1];
      OneReportEach(rest);
      OneMessageOfParts(m.finRsvOpcode, [], m.parts);
      assert [] + Joined(m.parts) == Joined(m.parts);
      OnlyMessagesConcat(PartEvents(m.finRsvOpcode, [], m.parts), MessageEvents(rest));
      assert forall i :: 0 < i < |messages| ==> messages[i] == rest[i - 1];
    }
  }

  // Every part fits the limit with those before it, and every control frame with the parts of the
  // message it interrupts.
  predicate PartsFit(before: nat, parts: seq<Part>, max: nat)
    decreases |parts|
  {
    parts == [] ||
    (&& before + |parts[0].payload| <= max
     && ControlsFit(if |parts| == 1 then 0 else before + |parts[0].payload|, parts[0].controls, max)
     && PartsFit(before + |parts[0].payload|, parts[1..], max))
  }

  predicate ControlsFit(before: nat, controls: seq<Control>, max: nat) {
    forall j :: 0 <= j < |controls| ==> before + |controls[j].payload| <= max
  }

  predicate MessagesFit(messages: seq<Outgoing>, max: nat) {
    forall i :: 0 <= i < |messages| ==> PartsFit(0, messages[i].parts, max)
  }

  lemma {:induction false} FitsConcat(fragmented: Option<InMessage>, a: seq<Incoming>, b: seq<Incoming>, max: nat)
    requires HandleAll(fragmented, a).goesOn
    ensures Fits(fragmented, a + b, max)
       <==> Fits(fragmented, a, max) && Fits(HandleAll(fragmented, a).fragmented, b, max)
    decreases |a|
  {
    hide Handle;
    if a == [] {
      assert a + b == b;
    } else {
      assert (a + b)[1..] == a[1..] + b;
      FitsConcat(Handle(fragmented, a[0]).fragmented, a[1..], b, max);
    }
  }

  lemma FitsFirst(fragmented: Option<InMessage>, f: Incoming, rest: seq<Incoming>, max: nat)
    requires Handle(fragmented, f).goesOn
    ensures Fits(fragmented, [f] + rest, max)
       <==> |f.payload| + Pending(fragmented) <= max && Fits(Handle(fragmented, f).fragmented, rest, max)
  {
    hide Handle;
    assert ([f] + rest)[1..] == rest;
  }

  lemma {:induction false} TotalConcat(a: seq<Incoming>, b: seq<Incoming>)
    ensures Total(a + b) == Total(a) + Total(b)
  {
    if a == [] {
      assert a + b == b;
    } else {
      assert (a + b)[1..] == a[1..] + b;
      TotalConcat(a[1..], b);
    }
  }

  lemma {:induction false} ControlsFitIff(fragmented: Option<InMessage>, controls: seq<Control>, max: nat)
    requires forall i :: 0 <= i < |controls| ==> ValidControl(controls[i])
    ensures Fits(fragmented, ControlFrames(controls), max) <==> ControlsFit(Pending(fragmented), controls, max)
  {
    if controls == [] {
    } else {
      var c, rest := controls[0], controls[1..];
      var f := Incoming(c.finRsvOpcode, c.payload);
      ControlsFitIff(fragmented, rest, max);
      assert ValidControl(c);
      assert Handle(fragmented, f).goesOn && Handle(fragmented, f).fragmented == fragmented;
      FitsFirst(fragmented, f, ControlFrames(rest), max);
      ControlsFitFirst(Pending(fragmented), controls, max);
    }
  }

  lemma ControlsFitFirst(before: nat, controls: seq<Control>, max: nat)
    requires controls != []
    ensures ControlsFit(before, controls, max) <==>
            before + |controls[0].payload| <= max && ControlsFit(before, controls[1..], max)
  {
    assert forall j :: 0 <= j < |controls[1..]| ==> controls[1..][j] == controls[j + 1];
    assert forall j :: 0 < j < |controls| ==> controls[j] == controls[1..][j - 1];
  }

  lemma {:induction false} PartsFitIff(fragmented: Option<InMessage>, finRsvOpcode: Byte, before: seq<Byte>,
        parts: seq<Part>, max: nat)
    requires IsData(finRsvOpcode) && Unfinished(fragmented, finRsvOpcode, before) && parts != [] && ValidParts(parts)
    requires Pending(fragmented) + Total(PartFrames(NextOpcode(fragmented, finRsvOpcode), parts)) < SIZES
    ensures Fits(fragmented, PartFrames(NextOpcode(fragmented, finRsvOpcode), parts), max)
       <==> PartsFit(Pending(fragmented), parts, max)
    decreases |parts|
  {
    hide *;
    DataOpcode(fragmented, finRsvOpcode);
    var part, rest, last := parts[0], parts[1..], |parts| == 1;
    var opcode := NextOpcode(fragmented, finRsvOpcode);
    var f := Incoming(if last then opcode + 128 else opcode, part.payload);
    var controls, after := ControlFrames(part.controls), PartFrames(0, rest);
    var h := Handle(fragmented, f);
    PartIsHandled(fragmented, finRsvOpcode, before, part.payload, last);
    ValidFirst(parts);
    PartsFitFirst(opcode, Pending(fragmented), parts, max);
    PartSizes(f, controls, after);
    PartLength(fragmented, f);
    ControlsAreHandled(h.fragmented, part.controls);
    ControlsFitIff(h.fragmented, part.controls, max);
    FitsFirst(fragmented, f, controls + after, max);
    FitsConcat(h.fragmented, controls, after, max);
    if last {
      NoFramesFit(h.fragmented, max);
    } else {
      DataOpcode(h.fragmented, finRsvOpcode);
      PartsFitIff(h.fragmented, finRsvOpcode, before + part.payload, rest, max);
    }
  }

  lemma DataOpcode(fragmented: Option<InMessage>, finRsvOpcode: Byte)
    requires IsData(finRsvOpcode)
    ensures finRsvOpcode >= 128
    ensures var opcode := NextOpcode(fragmented, finRsvOpcode);
            opcode < 128 && opcode % 16 !in {8, 9, 10} && (opcode + 128) % 16 !in {8, 9, 10}
    ensures fragmented.Some? ==> NextOpcode(fragmented, finRsvOpcode) == 0
  {
  }

  lemma ValidFirst(parts: seq<Part>)
    requires ValidParts(parts) && parts != []
    ensures ValidParts(parts[1..])
    ensures forall j :: 0 <= j < |parts[0].controls| ==> ValidControl(parts[0].controls[j])
  {
    assert forall i :: 0 <= i < |parts[1..]| ==> parts[1..][i] == parts[i + 1];
    hide ValidControl;
  }

  lemma PartsFitFirst(opcode: Byte, before: nat, parts: seq<Part>, max: nat)
    requires parts != [] && opcode < 128
    ensures var payload, last := parts[0].payload, |parts| == 1;
            PartsFit(before, parts, max) <==>
              && before + |payload| <= max
              && ControlsFit(if last then 0 else before + |payload|, parts[0].controls, max)
              && (!last ==> PartsFit(before + |payload|, parts[1..], max))
    ensures PartFrames(opcode, parts)
         == [Incoming(if |parts| == 1 then opcode + 128 else opcode, parts[0].payload)]
            + (ControlFrames(parts[0].controls) + PartFrames(0, parts[1..]))
    ensures |parts| == 1 ==> PartFrames(0, parts[1..]) == []
  {
    hide ControlsFit, ControlFrames;
  }

  lemma PartSizes(f: Incoming, controls: seq<Incoming>, after: seq<Incoming>)
    ensures Total([f] + (controls + after)) == |f.payload| + Total(controls) + Total(after)
  {
    TotalConcat(controls, after);
    assert ([f] + (controls + after))[1..] == controls + after;
  }

  lemma NoFramesFit(fragmented: Option<InMessage>, max: nat)
    ensures Fits(fragmented, [], max)
  {
  }

  lemma {:induction false} MessagesFitIff(messages: seq<Outgoing>, max: nat)
    requires ValidMessages(messages) && Total(MessageFrames(messages)) < SIZES
    ensures Fits(None, MessageFrames(messages), max) <==> MessagesFit(messages, max)
  {
    if messages == [] {
    } else {
      var m, rest := messages[0], messages[1..];
      var frames := PartFrames(m.finRsvOpcode - 128, m.parts);
      assert forall i :: 0 <= i < |rest| ==> rest[i] == messages[i + 1];
      assert forall i :: 0 < i < |messages| ==> messages[i] == rest[i - 1];
      TotalConcat(frames, MessageFrames(rest));
      MessagesFitIff(rest, max);
      PartsAreHandled(None, m.finRsvOpcode, [], m.parts);
      PartsFitIff(None, m.finRsvOpcode, [], m.parts, max);
      FitsConcat(None, frames, MessageFrames(rest), max);
      hide PartsFit, Fits;
    }
  }

  // What the client sends, whatever the masks, the server reports: all messages whole and all pings
  // and pongs, in order, and then the end of the input, if and only if all of it fits the limit.
  lemma MessagesAreServed(messages: seq<Outgoing>, masks: seq<seq<Byte>>, max: nat)
    requires ValidMessages(messages) && |masks| == |MessageFrames(messages)| && AreMasks(masks)
    requires Total(MessageFrames(messages)) + 4 < SIZES
    ensures Served(Sent(MessageFrames(messages), masks), None, max) == MessageEvents(messages) + [OnReading(Short)]
       <==> MessagesFit(messages, max)
  {
    var frames := MessageFrames(messages);
    MessagesArePutTogether(messages);
    MessagesFitIff(messages, max);
    FramesAreServed(frames, masks, None, max);
    hide *;
  }

  // ----- Close frames -----

  // Frames that fit, in front of any other bytes.
  lemma {:induction false} FramesInFront(frames: seq<Incoming>, masks: seq<seq<Byte>>, after: seq<Byte>,
        fragmented: Option<InMessage>, max: nat)
    requires |masks| == |frames| && AreMasks(masks) && Pending(fragmented) + Total(frames) + 4 < SIZES
    requires Fits(fragmented, frames, max) && HandleAll(fragmented, frames).goesOn
    ensures var h := HandleAll(fragmented, frames);
            Served(Sent(frames, masks) + after, fragmented, max) == h.events + Served(after, h.fragmented, max)
    decreases |frames|
  {
    hide *;
    if frames == [] {
      NoFrames(masks, fragmented, max);
      assert [] + after == after;
      assert [] + Served(after, fragmented, max) == Served(after, fragmented, max);
    } else {
      FirstFrame(frames, masks, fragmented, max);
      var f, rest := frames[0], Sent(frames[1..], masks[1..]) + after;
      var h := Handle(fragmented, f);
      Associative(Frame(f.finRsvOpcode, masks[0], f.payload), Sent(frames[1..], masks[1..]), after);
      ServedStep(Sent(frames, masks) + after, fragmented, max);
      SmallFrameIsRead(f, masks[0], rest, Pending(fragmented), max);
      PendingAfter(fragmented, f);
      FramesInFront(frames[1..], masks[1..], after, h.fragmented, max);
      Associative(h.events, HandleAll(h.fragmented, frames[1..]).events,
                  Served(after, HandleAll(fragmented, frames).fragmented, max));
    }
  }

  // A close frame, in whatever state: its status is the number in the first two bytes, its reason what
  // follows them, and without two bytes the status is 0. Nothing that follows is looked at.
  lemma CloseIsReported(payload: seq<Byte>, mask: seq<Byte>, after: seq<Byte>, fragmented: Option<InMessage>, max: nat)
    requires |mask| == 4 && |payload| + Pending(fragmented) + 4 < SIZES
    ensures Served(Frame(136, mask, payload) + after, fragmented, max)
         == if |payload| + Pending(fragmented) > max then [OnReading(TooBig)]
            else if |payload| < 2 then [OnClose(0, payload)]
            else [OnClose(256 * payload[0] as int + payload[1] as int, payload[2..])]
  {
    hide *;
    var f := Incoming(136, payload);
    SmallFrameIsRead(f, mask, after, Pending(fragmented), max);
    ServedStep(Frame(136, mask, payload) + after, fragmented, max);
    CloseIsHandled(payload, fragmented);
  }

  lemma CloseIsHandled(payload: seq<Byte>, fragmented: Option<InMessage>)
    ensures var h := Handle(fragmented, Incoming(136, payload));
            && !h.goesOn
            && h.events + [] == if |payload| < 2 then [OnClose(0, payload)]
                                else [OnClose(256 * payload[0] as int + payload[1] as int, payload[2..])]
  {
  }

  // Messages that fit are reported whatever bytes follow them.
  lemma MessagesInFront(messages: seq<Outgoing>, masks: seq<seq<Byte>>, after: seq<Byte>, max: nat)
    requires ValidMessages(messages) && |masks| == |MessageFrames(messages)| && AreMasks(masks)
    requires Total(MessageFrames(messages)) + 4 < SIZES && MessagesFit(messages, max)
    ensures Served(Sent(MessageFrames(messages), masks) + after, None, max)
         == MessageEvents(messages) + Served(after, None, max)
  {
    MessagesArePutTogether(messages);
    MessagesFitIff(messages, max);
    hide *;
    NothingPending();
    FramesInFront(MessageFrames(messages), masks, after, None, max);
  }

  // Messages that fit, then a close frame, then any bytes.
  lemma MessagesThenClose(messages: seq<Outgoing>, masks: seq<seq<Byte>>, payload: seq<Byte>, mask: seq<Byte>,
        after: seq<Byte>, max: nat)
    requires ValidMessages(messages) && |masks| == |MessageFrames(messages)| && AreMasks(masks)
    requires Total(MessageFrames(messages)) + 4 < SIZES && MessagesFit(messages, max)
    requires |mask| == 4 && |payload| + 4 < SIZES
    ensures Served(Sent(MessageFrames(messages), masks) + (Frame(136, mask, payload) + after), None, max)
         == MessageEvents(messages)
            + [if |payload| > max then OnReading(TooBig)
               else if |payload| < 2 then OnClose(0, payload)
               else OnClose(256 * payload[0] as int + payload[1] as int, payload[2..])]
  {
    hide *;
    NothingPending();
    MessagesInFront(messages, masks, Frame(136, mask, payload) + after, max);
    CloseIsReported(payload, mask, after, None, max);
  }

  // The status and the reason that were sent are those that are reported.
  lemma StatusIsReported(messages: seq<Outgoing>, masks: seq<seq<Byte>>, status: nat, reason: seq<Byte>,
        mask: seq<Byte>, after: seq<Byte>, max: nat)
    requires ValidMessages(messages) && |masks| == |MessageFrames(messages)| && AreMasks(masks)
    requires Total(MessageFrames(messages)) + 4 < SIZES && MessagesFit(messages, max)
    requires |mask| == 4 && status < 65536 && |reason| + 2 <= max && |reason| + 6 < SIZES
    ensures Served(Sent(MessageFrames(messages), masks) + (Frame(136, mask, BigEndian(status, 2) + reason) + after),
                   None, max)
         == MessageEvents(messages) + [OnClose(status, reason)]
  {
    hide *;
    ClosePayload(status, reason);
    MessagesThenClose(messages, masks, BigEndian(status, 2) + reason, mask, after, max);
  }

  lemma ClosePayload(status: nat, reason: seq<Byte>)
    requires status < 65536
    ensures var payload := BigEndian(status, 2) + reason;
            && |payload| == |reason| + 2 && payload[2..] == reason
            && 256 * payload[0] as int + payload[1] as int == status
  {
    StatusBytes(status);
    hide BigEndian;
  }

  lemma NothingPending()
    ensures Pending(None) == 0
  {
  }

  lemma StatusBytes(status: nat)
    requires status < 65536
    ensures BigEndian(status, 2) == [status / 256, status % 256]
  {
    assert BigEndian(status / 256, 1) == BigEndian(status / 256 / 256, 0) + [status / 256 % 256];
  }

  // ----- Known bytes -----

  // Lengths on both sides of the limits of the three forms (section 5.2).
  lemma LengthCodes()
    ensures LengthField(5) == [133] && LengthField(125) == [253]
    ensures LengthField(126) == [254, 0, 126] && LengthField(256) == [254, 1, 0]
    ensures LengthField(65535) == [254, 255, 255]
    ensures LengthField(65536) == [255, 0, 0, 0, 0, 0, 1, 0, 0]
  {
    StatusBytes(126);
    StatusBytes(256);
    StatusBytes(65535);
    EightBytes(65536);
    hide BigEndian;
  }

  lemma EightBytes(n: nat)
    requires n < 0x100_0000
    ensures BigEndian(n, 8) == [0, 0, 0, 0, 0, n / 65536, n / 256 % 256, n % 256]
  {
    StatusBytes(0);
    StatusBytes(n / 65536);
    assert BigEndian(0, 4) == BigEndian(0, 2) + [0] + [0];
    assert BigEndian(n / 65536, 6) == BigEndian(0, 4) + [0] + [n / 65536];
  }

  const HELLO: seq<Byte> := [0x48, 0x65, 0x6c, 0x6c, 0x6f]
  const HELLO_MASK: seq<Byte> := [0x37, 0xfa, 0x21, 0x3d]
  const HELLO_FRAME: seq<Byte> := [0x81, 0x85, 0x37, 0xfa, 0x21, 0x3d, 0x7f, 0x9f, 0x4d, 0x51, 0x58]

  // The masked text "Hello" of section 5.7: its bytes, and what the server makes of them.
  lemma MaskedHello(max: nat)
    requires max >= 5
    ensures Frame(0x81, HELLO_MASK, HELLO) == HELLO_FRAME
    ensures Served(HELLO_FRAME, None, max) == [OnMessage(0x81, HELLO), OnReading(Short)]
  {
    HelloIsFramed();
    WholeMessage(0x81, HELLO_MASK, HELLO, max);
    hide Frame, Served;
  }

  lemma HelloIsFramed()
    ensures Frame(0x81, HELLO_MASK, HELLO) == HELLO_FRAME
  {
    HelloIsMasked();
    hide Masked;
    assert LengthField(5) == [0x85];
    hide LengthField;
    assert Frame(0x81, HELLO_MASK, HELLO)
        == [0x81] + [0x85] + [0x37, 0xfa, 0x21, 0x3d] + [0x7f, 0x9f, 0x4d, 0x51, 0x58];
  }

  lemma HelloIsMasked()
    ensures Masked(HELLO, HELLO_MASK) == [0x7f, 0x9f, 0x4d, 0x51, 0x58]
  {
    HelloBytes();
    hide Xor;
  }

  lemma HelloBytes()
    ensures Xor(0x48, 0x37) == 0x7f && Xor(0x65, 0xfa) == 0x9f && Xor(0x6c, 0x21) == 0x4d
    ensures Xor(0x6c, 0x3d) == 0x51 && Xor(0x6f, 0x37) == 0x58
  {
  }

  // A message sent whole.
  lemma WholeMessage(finRsvOpcode: Byte, mask: seq<Byte>, content: seq<Byte>, max: nat)
    requires IsData(finRsvOpcode) && |mask| == 4 && |content| <= max && |content| + 4 < SIZES
    ensures Served(Frame(finRsvOpcode, mask, content), None, max)
         == [OnMessage(finRsvOpcode, content), OnReading(Short)]
  {
    var f := Incoming(finRsvOpcode, content);
    FirstPart(finRsvOpcode, content, true);
    hide *;
    NothingPending();
    NothingIsRead(0, max);
    ServedStep([], None, max);
    SmallFrameIsRead(f, mask, [], 0, max);
    ServedStep(Frame(finRsvOpcode, mask, content), None, max);
    assert Frame(finRsvOpcode, mask, content) + [] == Frame(finRsvOpcode, mask, content);
  }

  // A message in two parts with a ping and a pong between them, each part and each ping with its bytes in
  // their order.
  lemma TwoParts(opcode: Byte, a: seq<Byte>, b: seq<Byte>, ping: seq<Byte>, pong: seq<Byte>)
    requires opcode == 1 || opcode == 2
    ensures HandleAll(None, [Incoming(opcode, a), Incoming(137, ping), Incoming(138, pong), Incoming(128, b)])
         == Handled(None, [OnPing(138, ping), OnPong, OnMessage(128 + opcode, a + b)], true)
  {
    FirstPart(128 + opcode, a, false);
    var m := InMessage(128 + opcode, |a|, a);
    NextPart(m, b, true);
    ControlIsHandled(Some(m), ping, pong);
    hide Handle;
    var frames := [Incoming(opcode, a), Incoming(137, ping), Incoming(138, pong), Incoming(128, b)];
    assert frames[1..] == [Incoming(137, ping), Incoming(138, pong), Incoming(128, b)];
    assert frames[1..][1..] == [Incoming(138, pong), Incoming(128, b)];
    assert frames[1..][1..][1..] == [Incoming(128, b)] && frames[1..][1..][1..][1..] == [];
    assert HandleAll(Some(m), frames[1..][1..][1..]) == Handled(None, [OnMessage(128 + opcode, a + b)], true);
    assert HandleAll(Some(m), frames[1..][1..]) == Handled(None, [OnPong, OnMessage(128 + opcode, a + b)], true);
  }

  lemma ControlIsHandled(fragmented: Option<InMessage>, ping: seq<Byte>, pong: seq<Byte>)
    ensures Handle(fragmented, Incoming(137, ping)) == Handled(fragmented, [OnPing(138, ping)], true)
    ensures Handle(fragmented, Incoming(138, pong)) == Handled(fragmented, [OnPong], true)
  {
  }

  // Frames that the sender here never writes: a continuation of nothing is taken for a message or its first
  // part, a whole message ends the one being put together without it, a part with an opcode is joined to it,
  // a control frame that is not final becomes part of it, and other opcodes and bits count as data.
  lemma OddFrames(m: InMessage, payload: seq<Byte>, last: Byte)
    requires last >= 128 && last % 16 in {3, 4, 5, 6, 7, 11, 12, 13, 14, 15}
    ensures Handle(None, Incoming(128, payload)) == Handled(None, [OnMessage(128, payload)], true)
    ensures Handle(None, Incoming(0, payload)) == Handled(Some(InMessage(128, |payload|, payload)), [], true)
    ensures Handle(Some(m), Incoming(129, payload)) == Handled(None, [OnMessage(129, payload)], true)
    ensures Handle(Some(m), Incoming(1, payload)) == Handle(Some(m), Incoming(0, payload))
    ensures Handle(None, Incoming(9, payload))
         == Handled(Some(InMessage(137, |payload|, payload)), [OnPing(10, payload)], true)
    ensures Handle(Some(m), Incoming(10, payload))
         == Handled(Some(m.(length := (m.length + |payload|) % SIZES, content := m.content + payload)), [OnPong], true)
    ensures Handle(Some(m), Incoming(last, payload)) == Handled(None, [OnMessage(last, payload)], true)
  {
  }

  // A close frame that is not final is reported with the first two bytes of what it becomes part of.
  lemma UnfinishedClose(m: InMessage, payload: seq<Byte>)
    requires |payload| >= 2
    ensures var content := m.content + payload;
            Handle(Some(m), Incoming(8, payload)).events
            == [OnClose(256 * content[0] as int + content[1] as int, content[2..])]
  {
  }

  // Where the input is cut off before the mask is complete, the missing bytes of the mask are zero and those
  // of the payload 255.
  lemma NothingLeft(bytes: seq<Byte>, length: nat, i: nat)
    requires |bytes| < 4 && i < length
    ensures Unmasked(bytes, length)[i] == Xor(255, if i % 4 < |bytes| then bytes[i % 4] else 0)
  {
    hide Xor;
  }

  // Reading ends at a frame without a mask bit, and only there with that error, however the input goes on.
  lemma UnmaskedIsRefused(first: Byte, second: Byte, after: seq<Byte>, fragmented: Option<InMessage>, max: nat)
    ensures Read([first, second] + after, Pending(fragmented), max) == NotMasked <==> second < 128
    ensures second < 128 ==> Served([first, second] + after, fragmented, max) == [OnReading(NotMasked)]
  {
    var input := [first, second] + after;
    ServedStep(input, fragmented, max);
    assert |input| >= 2 && input[1] == second;
    hide Declared, ReadContent, Served;
    if second >= 128 && |input| >= 2 + Extended(second) {
      NoMaskError(first, Declared(input), input[2 + Extended(second)..], Pending(fragmented), max);
    }
  }

  lemma NoMaskError(first: Byte, length: nat, input: seq<Byte>, pending: nat, max: nat)
    requires length < SIZES
    ensures ReadContent(first, length, input, pending, max) != NotMasked
  {
  }

  // ----- The size limit -----

  // The reported bytes of an event.
  function Reported(e: Event): nat {
    match e
    case OnMessage(_, content) => |content|
    case OnPing(_, pong) => |pong|
    case OnClose(_, reason) => |reason|
    case _ => 0
  }

  // The unfinished message has the length it says and is within the limit.
  ghost predicate Within(fragmented: Option<InMessage>, max: nat) {
    fragmented.Some? ==> fragmented.value.length == |fragmented.value.content| <= max
  }

  // For a frame that passes the size check, the check is exact if and only if its sum does not wrap.
  lemma CheckIsExact(length: nat, pending: nat, max: nat)
    requires length < SIZES && pending <= max < SIZES && (length + pending) % SIZES <= max
    ensures length + pending <= max <==> length + pending < SIZES
  {
  }

  // The message that a frame adds to is then within the limit.
  predicate FrameFits(fragmented: Option<InMessage>, f: Incoming, max: nat) {
    if IsFragment(f) then |f.payload| + Pending(fragmented) < SIZES else |f.payload| <= max
  }

  // No fragment read from the input makes a sum that wraps around, and no other frame is longer
  // than the limit.
  predicate NothingWraps(input: seq<Byte>, fragmented: Option<InMessage>, max: nat)
    decreases |input|
  {
    match Read(input, Pending(fragmented), max)
    case Got(f, rest) =>
      ReadIsShorter(input, Pending(fragmented), max);
      var h := Handle(fragmented, f);
      FrameFits(fragmented, f, max) && (h.goesOn ==> NothingWraps(rest, h.fragmented, max))
    case _ => true
  }

  // Every message that gets a payload from the input is within the limit.
  predicate NothingTooLong(input: seq<Byte>, fragmented: Option<InMessage>, max: nat)
    decreases |input|
  {
    match Read(input, Pending(fragmented), max)
    case Got(f, rest) =>
      ReadIsShorter(input, Pending(fragmented), max);
      var h := Handle(fragmented, f);
      |Appended(fragmented, f).content| <= max && (h.goesOn ==> NothingTooLong(rest, h.fragmented, max))
    case _ => true
  }

  // On every input, no message that is reported or put together exceeds the limit if and only if no
  // fragment makes a sum that wraps around and no other frame is longer than the limit.
  lemma {:induction false} NothingTooBig(input: seq<Byte>, fragmented: Option<InMessage>, max: nat)
    requires Within(fragmented, max) && max < SIZES
    ensures NothingTooLong(input, fragmented, max) <==> NothingWraps(input, fragmented, max)
    ensures NothingWraps(input, fragmented, max) ==>
              forall e :: e in Served(input, fragmented, max) ==> Reported(e) <= max
    decreases |input|
  {
    ServedStep(input, fragmented, max);
    match Read(input, Pending(fragmented), max)
    case Got(f, rest) =>
      ReadIsShorter(input, Pending(fragmented), max);
      ReadPasses(input, Pending(fragmented), max);
      FrameFitsIff(fragmented, f, max);
      hide Read, Handle, Served, Appended, FrameFits, Within;
      if Handle(fragmented, f).goesOn && FrameFits(fragmented, f, max) {
        NothingTooBig(rest, Handle(fragmented, f).fragmented, max);
      }
    case _ =>
  }

  lemma ReadPasses(input: seq<Byte>, pending: nat, max: nat)
    requires Read(input, pending, max).Got?
    ensures var f := Read(input, pending, max).frame;
            |f.payload| < SIZES && (|f.payload| + pending) % SIZES <= max
  {
    hide Declared, Unmasked;
  }

  // One frame that has passed the check.
  lemma FrameFitsIff(fragmented: Option<InMessage>, f: Incoming, max: nat)
    requires Within(fragmented, max) && max < SIZES
    requires |f.payload| < SIZES && (|f.payload| + Pending(fragmented)) % SIZES <= max
    ensures FrameFits(fragmented, f, max) <==> |Appended(fragmented, f).content| <= max
    ensures |f.payload| + max < SIZES ==> FrameFits(fragmented, f, max)
    ensures FrameFits(fragmented, f, max) ==> Within(Handle(fragmented, f).fragmented, max)
    ensures FrameFits(fragmented, f, max) ==> forall e :: e in Handle(fragmented, f).events ==> Reported(e) <= max
  {
    CheckIsExact(|f.payload|, Pending(fragmented), max);
    AppendedLength(fragmented, f);
    HandledLength(fragmented, f);
    hide Appended, Handle, IsFragment, Reported;
    if IsFragment(f) && fragmented.Some? {
      if FrameFits(fragmented, f, max) {
        assert Appended(fragmented, f).length == |f.payload| + fragmented.value.length;
      }
    }
  }

  // What is reported is of the message that the frame adds to, and so is what is kept.
  lemma HandledLength(fragmented: Option<InMessage>, f: Incoming)
    ensures var h, m := Handle(fragmented, f), Appended(fragmented, f);
            && (h.fragmented == None || h.fragmented == fragmented || (IsFragment(f) && h.fragmented == Some(m)))
            && forall e :: e in h.events ==> Reported(e) <= |m.content|
  {
    hide Appended, IsFragment;
  }

  lemma AppendedLength(fragmented: Option<InMessage>, f: Incoming)
    ensures var m := Appended(fragmented, f);
            && m.length == (if !IsFragment(f) then |f.payload|
                            else if fragmented.None? then |f.payload|
                            else (fragmented.value.length + |f.payload|) % SIZES)
            && |m.content|
            == (if IsFragment(f) && fragmented.Some? then |fragmented.value.content| else 0) + |f.payload|
  {
  }

  // The bytes of a fragment of one byte and of a final fragment that declares `length` bytes.
  function WrappingInput(x: Byte, mask: seq<Byte>, length: nat, after: seq<Byte>): seq<Byte>
    requires |mask| == 4
  {
    Frame(1, mask, [x]) + ([128] + LengthField(length) + after)
  }

  // A sum that wraps: with 2^64 - 1 bytes declared, and three bytes after that, a message of 2^64
  // bytes is reported whatever the limit.
  lemma WrappedSum(x: Byte, mask: seq<Byte>, length: nat, after: seq<Byte>, max: nat)
    requires |mask| == 4 && |after| == 3 && 1 <= max < SIZES && length == SIZES - 1
    ensures var served := Served(WrappingInput(x, mask, length, after), None, max);
            served != [] && served[0].OnMessage? && |served[0].content| == SIZES > max
  {
    var f, m := Incoming(1, [x]), InMessage(129, 1, [x]);
    var last := [128] + LengthField(length) + after;
    hide *;
    FragmentOfOne(x, max);
    FrameIsRead(f, mask, last, Pending(None), max);
    ServedQuietly(Frame(1, mask, [x]) + last, None, max, f, last, Some(m));
    WrappedFragment(m, length, after, max);
    InputParts(x, mask, length, after);
  }

  lemma InputParts(x: Byte, mask: seq<Byte>, length: nat, after: seq<Byte>)
    requires |mask| == 4
    ensures WrappingInput(x, mask, length, after) == Frame(1, mask, [x]) + ([128] + LengthField(length) + after)
  {
  }

  lemma FragmentOfOne(x: Byte, max: nat)
    ensures Handle(None, Incoming(1, [x])) == Handled(Some(InMessage(129, 1, [x])), [], true)
    ensures 1 <= max ==> (1 + Pending(None)) % SIZES <= max
  {
  }

  // A frame that reports nothing.
  lemma ServedQuietly(input: seq<Byte>, fragmented: Option<InMessage>, max: nat,
        f: Incoming, rest: seq<Byte>, next: Option<InMessage>)
    requires Read(input, Pending(fragmented), max) == Got(f, rest)
    requires Handle(fragmented, f) == Handled(next, [], true)
    ensures Served(input, fragmented, max) == Served(rest, next, max)
  {
    hide *;
    ServedStep(input, fragmented, max);
    assert [] + Served(rest, next, max) == Served(rest, next, max);
  }

  lemma WrappedFragment(m: InMessage, length: nat, after: seq<Byte>, max: nat)
    requires |after| == 3 && m.length == |m.content| == 1 && max < SIZES && length == SIZES - 1
    ensures var served := Served([128] + LengthField(length) + after, Some(m), max);
            served != [] && served[0].OnMessage? && |served[0].content| == SIZES
  {
    hide Handle, Read, Served, LengthField, ReadContent, Unmasked;
    HeaderIsRead(128, length, after, 1, max);
    WrappedContent(length, after, max);
    ServedStep([128] + LengthField(length) + after, Some(m), max);
    NextPart(m, Unmasked(after, length), true);
  }

  lemma WrappedContent(length: nat, after: seq<Byte>, max: nat)
    requires |after| == 3 && length == SIZES - 1
    ensures ReadContent(128, length, after, 1, max) == Got(Incoming(128, Unmasked(after, length)), [])
  {
    hide Unmasked;
    assert after[..3] == after;
  }
}
