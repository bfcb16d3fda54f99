/** Messages on a channel, and how a session puts them together again from whatever the reads deliver. */
module ChannelFraming {
  import opened Prelude
  import opened BigEndian

  const HEADER_LENGTH: nat := 42

  datatype Message = Message(kind: nat, sequence: Bytes, result: int, data: Bytes)

  /** A 16-bit type, a 32-byte sequence, a 32-bit result, and a length that fits its 32-bit field. */
  predicate WellFormed(m: Message) {
    && m.kind < 0x1_0000 && |m.sequence| == 32 && -0x8000_0000 <= m.result < 0x8000_0000
    && HEADER_LENGTH + |m.data| < 0x1_0000_0000
  }

  function Unsigned(n: int): nat
    requires -0x8000_0000 <= n < 0x8000_0000
  {
    if n >= 0 then n else n + 0x1_0000_0000
  }

  function Signed(n: nat): int {
    if n < 0x8000_0000 then n else n - 0x1_0000_0000
  }

  function Encode(m: Message): Bytes
    requires WellFormed(m)
  {
    Fixed(HEADER_LENGTH + |m.data|, 4) + Fixed(m.kind, 2) + m.sequence + Fixed(Unsigned(m.result), 4) + m.data
  }

  datatype Decoded = Incomplete | Malformed | Complete(message: Message, length: nat)

  /** decodeAMOP; a length field below the length of the header is left undefined by the source. */
  function Decode(buffer: Bytes): Decoded {
    if |buffer| < HEADER_LENGTH then Incomplete
    else
      var length := Value(buffer[..4]);
      if |buffer| < length then Incomplete
      else if length < HEADER_LENGTH then Malformed
      else Complete(
          Message(Value(buffer[4..6]), buffer[6..38], Signed(Value(buffer[38..42])), buffer[HEADER_LENGTH..length]),
          length)
  }

  lemma FiveParts(a: Bytes, b: Bytes, c: Bytes, d: Bytes, e: Bytes, more: Bytes)
    requires |a| == 4 && |b| == 2 && |c| == 32 && |d| == 4
    ensures var s := a + b + c + d + e + more;
            s[..4] == a && s[4..6] == b && s[6..38] == c && s[38..42] == d && s[42..42 + |e|] == e
  {
  }

  /**
    The bytes of a message: total length in 4, type in 2, sequence in 32, result
    in two's complement in 4, all big-endian, and the data.
   */
  ghost predicate IsFrame(m: Message, e: Bytes) {
    && |e| == 42 + |m.data| && Value(e[..4]) == |e| && Value(e[4..6]) == m.kind && e[6..38] == m.sequence
    && Value(e[38..42]) == (if m.result >= 0 then m.result else m.result + 0x1_0000_0000) && e[42..] == m.data
  }

  lemma Powers()
    ensures Pow256(2) == 0x1_0000 && Pow256(4) == 0x1_0000_0000
  {
  }

  lemma EncodeIsFrame(m: Message)
    requires WellFormed(m)
    ensures IsFrame(m, Encode(m))
  {
    var length, kind, result := HEADER_LENGTH + |m.data|, m.kind, Unsigned(m.result);
    Powers();
    ValueFixed(length, 4);
    ValueFixed(kind, 2);
    ValueFixed(result, 4);
    FiveParts(Fixed(length, 4), Fixed(kind, 2), m.sequence, Fixed(result, 4), m.data, []);
    assert Encode(m) + [] == Encode(m);
  }

  /** A message is decoded from its encoding, whatever follows it. */
  lemma DecodeEncode(m: Message, more: Bytes)
    requires WellFormed(m)
    ensures Decode(Encode(m) + more) == Complete(m, |Encode(m)|)
  {
    Powers();
    ValueFixed(HEADER_LENGTH + |m.data|, 4);
    ValueFixed(m.kind, 2);
    ValueFixed(Unsigned(m.result), 4);
    FiveParts(Fixed(HEADER_LENGTH + |m.data|, 4), Fixed(m.kind, 2), m.sequence,
              Fixed(Unsigned(m.result), 4), m.data, more);
  }

  /** What the loop of onRead takes out of a buffer, and what it leaves. */
  function Delivered(buffer: Bytes): seq<Message>
    decreases |buffer|
  {
    match Decode(buffer)
    case Complete(m, length) => [m] + Delivered(buffer[length..])
    case _ => []
  }

  function Left(buffer: Bytes): Bytes
    decreases |buffer|
  {
    match Decode(buffer)
    case Complete(_, length) => Left(buffer[length..])
    case _ => buffer
  }

  /** A complete message, and a malformed one, is the same when more has come in. */
  lemma DecodePrefix(buffer: Bytes, more: Bytes)
    requires !Decode(buffer).Incomplete?
    ensures Decode(buffer + more) == Decode(buffer)
  {
    var longer := buffer + more;
    assert longer[..4] == buffer[..4];
    if Decode(buffer).Complete? {
      var length := Decode(buffer).length;
      assert longer[4..6] == buffer[4..6] && longer[6..38] == buffer[6..38] && longer[38..42] == buffer[38..42];
      assert longer[HEADER_LENGTH..length] == buffer[HEADER_LENGTH..length];
    }
  }

  /** Reading more later is reading all at once. */
  lemma {:induction false} DeliveredJoin(buffer: Bytes, more: Bytes)
    ensures Delivered(buffer + more) == Delivered(buffer) + Delivered(Left(buffer) + more)
    ensures Left(buffer + more) == Left(Left(buffer) + more)
    decreases |buffer|
  {
    match Decode(buffer)
    case Complete(m, length) =>
      DecodePrefix(buffer, more);
      DeliveredJoin(buffer[length..], more);
      assert (buffer + more)[length..] == buffer[length..] + more;
    case _ =>
      assert [] + Delivered(buffer + more) == Delivered(buffer + more);
  }

  predicate AllWellFormed(ms: seq<Message>) {
    ms == [] || (WellFormed(ms[0]) && AllWellFormed(ms[1..]))
  }

  function EncodeAll(ms: seq<Message>): Bytes
    requires AllWellFormed(ms)
  {
    if ms == [] then [] else Encode(ms[0]) + EncodeAll(ms[1..])
  }

  lemma {:induction false} AllDelivered(ms: seq<Message>)
    requires AllWellFormed(ms)
    ensures Delivered(EncodeAll(ms)) == ms && Left(EncodeAll(ms)) == []
  {
    if ms == [] {
    } else {
      DecodeEncode(ms[0], EncodeAll(ms[1..]));
      TakeAppend(Encode(ms[0]), EncodeAll(ms[1..]));
      AllDelivered(ms[1..]);
    }
  }

  class ChannelSession {
    var recvProtocolBuffer: Bytes
    var messages: seq<Message>

    constructor ()
      ensures recvProtocolBuffer == [] && messages == []
    {
      recvProtocolBuffer, messages := [], [];
    }

    /** What the reads so far have led to. */
    ghost predicate HasRead(bytes: Bytes)
      reads this
    {
      messages == Delivered(bytes) && recvProtocolBuffer == Left(bytes)
    }

    /** encode, as an append to a buffer. */
    static method AppendMessage(buffer: Bytes, m: Message) returns (out: Bytes)
      requires WellFormed(m)
      ensures out == buffer + Encode(m) && IsFrame(m, Encode(m))
    {
      EncodeIsFrame(m);
      out := buffer + Fixed(HEADER_LENGTH + |m.data|, 4);
      out := out + Fixed(m.kind, 2);
      out := out + m.sequence;
      out := out + Fixed(Unsigned(m.result), 4);
      out := out + m.data;
      AppendFive(buffer, Fixed(HEADER_LENGTH + |m.data|, 4), Fixed(m.kind, 2), m.sequence,
                 Fixed(Unsigned(m.result), 4), m.data);
    }

    static lemma AppendFive(s: Bytes, a: Bytes, b: Bytes, c: Bytes, d: Bytes, e: Bytes)
      ensures s + a + b + c + d + e == s + (a + b + c + d + e)
    {
    }

    /** onRead: every message that is complete is delivered, and the rest waits for the next read. */
    method OnRead(received: Bytes, ghost before: Bytes)
      requires HasRead(before)
      modifies this
      ensures HasRead(before + received)
    {
      DeliveredJoin(before, received);
      recvProtocolBuffer := recvProtocolBuffer + received;
      ghost var all := Delivered(before + received);
      while true
        modifies this
        invariant messages + Delivered(recvProtocolBuffer) == all
        invariant Left(recvProtocolBuffer) == Left(before + received)
        decreases |recvProtocolBuffer|
      {
        var decoded := Decode(recvProtocolBuffer);
        if !decoded.Complete? {
          break;
        }
        AppendAssoc(messages, [decoded.message], Delivered(recvProtocolBuffer[decoded.length..]));
        messages := messages + [decoded.message];
        recvProtocolBuffer := recvProtocolBuffer[decoded.length..];
      }
      assert messages + [] == messages;
    }

    /** However the encodings of messages are cut into reads, exactly the messages are delivered, in order. */
    method OnReads(chunks: seq<Bytes>, ghost ms: seq<Message>)
      requires HasRead([]) && AllWellFormed(ms) && Concat(chunks) == EncodeAll(ms)
      modifies this
      ensures messages == ms && recvProtocolBuffer == []
    {
      for i := 0 to |chunks|
        modifies this
        invariant HasRead(Concat(chunks[..i]))
      {
        ConcatSnoc(chunks[..i], chunks[i]);
        assert chunks[..i + 1] == chunks[..i] + [chunks[i]];
        OnRead(chunks[i], Concat(chunks[..i]));
      }
      assert chunks[..|chunks|] == chunks;
      AllDelivered(ms);
    }
  }
}
