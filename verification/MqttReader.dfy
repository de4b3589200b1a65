/** The readers of MQTT.cpp: packets of up to 1024 bytes are read whole and taken apart in a buffer, larger ones are
    taken apart as the network delivers them and leave their tail unread. */
module MqttReader {
  import opened Basics
  import opened MqttCodec

  // What becomes of readPacket on the bytes the network will ever deliver. Waiting: it spins on available() for ever.
  // Undefined: it touches memory outside its buffers, or returns a pointer it never set.
  datatype Outcome = Got(message: Message, rest: bytes) | NoMessage(rest: bytes) | Waiting | Undefined

  // ---- what the readers make of bytes ----------------------------------------------------------------------------

  function AsU16(s: bytes): Option<(uint16, bytes)>
  {
    if |s| < 2 then None else Some((FromU16(s[0], s[1]), s[2..]))
  }

  function AsText(s: bytes): Option<(bytes, bytes)>
  {
    match AsU16(s)
    case None => None
    case Some(r) => if |r.1| < r.0 then None else Some((r.1[..r.0], r.1[r.0..]))
  }

  function AsTopicAndId(flags: byte, s: bytes): Option<(bytes, uint16, bytes)>
  {
    match AsText(s)
    case None => None
    case Some(t) =>
      if Qos(flags) == 0 then Some((t.0, 0, t.1))
      else match AsU16(t.1)
           case None => None
           case Some(r) => Some((t.0, r.0, r.1))
  }

  function BufferedPublish(flags: byte, data: bytes): Option<Message>
  {
    match AsTopicAndId(flags, data)
    case None => None
    case Some(r) => Some(Publish(flags, r.1, r.0, r.2))
  }

  // The payload length is an unsigned 32-bit difference; the topic length is not checked against the packet's.
  function StreamedPublish(flags: byte, stream: bytes, remaining: nat): Outcome
  {
    match AsTopicAndId(flags, stream)
    case None => Waiting
    case Some(r) =>
      Got(PublishStream(flags, r.1, r.0, (remaining - 2 - |r.0| - if Qos(flags) != 0 then 2 else 0) % 0x1_0000_0000),
          r.2)
  }

  function FromBuffer(code: byte, flags: byte, data: bytes): Option<Message>
  {
    if code == 2 then if |data| < 2 then None else Some(ConnAck(data[0] % 2 == 1, data[1]))
    else if code == 3 then BufferedPublish(flags, data)
    else if code == 12 then Some(PingReq)
    else if code == 13 then Some(PingResp)
    else match AsU16(data)
         case None => None
         case Some(r) =>
           if code == 4 then Some(PubAck(r.0))
           else if code == 5 then Some(PubRec(r.0))
           else if code == 6 then Some(PubRel(r.0))
           else if code == 7 then Some(PubComp(r.0))
           else if code == 9 then Some(SubAck(r.0, r.1))
           else if code == 11 then Some(UnsubAck(r.0))
           else None
  }

  // The remaining length is kept in four bytes; a fifth is written past their end.
  datatype Length = Known(n: nat, rest: bytes) | Endless | Overrun

  function AsLength(s: bytes): Length
  {
    if |s| > 4 && forall i :: 0 <= i < 4 ==> s[i] >= 128 then Overrun
    else match ReadVarInt(s)
         case None => Endless
         case Some(r) => Known(r.0, r.1)
  }

  function Parse(s: bytes): Outcome
  {
    if s == [] then Waiting
    else match AsLength(s[1..])
         case Endless => Waiting
         case Overrun => Undefined
         case Known(n, rest) => ParseBody(s[0] / 16, s[0] % 16, n, rest)
  }

  // When the network breaks off inside a small packet the rest of the buffer stays uninitialised.
  function ParseBody(code: byte, flags: byte, remaining: nat, s: bytes): Outcome
  {
    if remaining > 1024 then
      if code == 3 then StreamedPublish(flags, s, remaining)
      else if code == 9 then
        match AsU16(s)
        case None => Waiting
        case Some(r) => Got(SubAckStream(r.0, remaining - 2), r.1)
      else NoMessage(s)
    else if |s| < remaining then Undefined
    else match FromBuffer(code, flags, s[..remaining])
         case None => Undefined
         case Some(m) => Got(m, s[remaining..])
  }

  // ---- the readers -----------------------------------------------------------------------------------------------

  // read<String> from a buffer; None when it runs past the end.
  method ReadBufferText(data: array<byte>, pos: nat) returns (text: Option<bytes>, next: nat)
    requires pos <= data.Length
    ensures pos <= next <= data.Length
    ensures AsText(data[pos..]) == if text.None? then None else Some((text.value, data[next..]))
  {
    text, next := None, pos;
    if next + 2 > data.Length {
      return;
    }
    var len: nat := FromU16(data[next], data[next + 1]);
    next := next + 2;
    ghost var start := next;
    var val: bytes, i := [], 0;
    while i < len
      invariant i <= len && next == start + i <= data.Length && val == data[start..next]
    {
      if next >= data.Length {
        return;
      }
      val := val + [data[next]];
      next := next + 1;
      i := i + 1;
    }
    text := Some(val);
    assert data[pos..][2..] == data[start..];
    assert data[start..][..len] == val && data[start..][len..] == data[next..];
  }

  // The constructor of Publish from a buffer.
  method PublishFromBuffer(flags: byte, data: array<byte>) returns (m: Option<Message>)
    ensures m == BufferedPublish(flags, data[..])
  {
    assert data[0..] == data[..];
    hide AsText;
    var text, pos := ReadBufferText(data, 0);
    if text.None? {
      return None;
    }
    var id: uint16 := 0;
    if Qos(flags) > 0 {
      if pos + 2 > data.Length {
        return None;
      }
      id := FromU16(data[pos], data[pos + 1]);
      pos := pos + 2;
    }
    m := Some(Publish(flags, id, text.value, data[pos..]));
  }

  class Network {
    var unread: bytes

    constructor (delivery: bytes)
      ensures unread == delivery
    {
      unread := delivery;
    }

    method ReadByte() returns (b: Option<byte>)
      modifies this
      ensures old(unread) == [] ==> b == None && unread == []
      ensures old(unread) != [] ==> b == Some(old(unread)[0]) && unread == old(unread)[1..]
    {
      if unread == [] {
        return None;
      }
      b := Some(unread[0]);
      unread := unread[1..];
    }

    method ReadU16() returns (n: Option<uint16>)
      modifies this
      ensures AsU16(old(unread)) == if n.None? then None else Some((n.value, unread))
    {
      var hi := ReadByte();
      if hi.None? {
        return None;
      }
      var lo := ReadByte();
      if lo.None? {
        return None;
      }
      n := Some(FromU16(hi.value, lo.value));
    }

    // read<String> from the network, byte by byte.
    method ReadText() returns (text: Option<bytes>)
      modifies this
      ensures AsText(old(unread)) == if text.None? then None else Some((text.value, unread))
    {
      var len := ReadU16();
      if len.None? {
        return None;
      }
      ghost var start := unread;
      var val: bytes, i := [], 0;
      while i < len.value
        invariant i <= len.value && i <= |start| && val == start[..i] && unread == start[i..]
      {
        var b := ReadByte();
        if b.None? {
          return None;
        }
        val := val + [b.value];
        i := i + 1;
      }
      text := Some(val);
    }

    // The constructor of Publish from the network.
    method PublishFromStream(flags: byte, remaining: nat) returns (m: Option<Message>)
      modifies this
      ensures StreamedPublish(flags, old(unread), remaining) == if m.None? then Waiting else Got(m.value, unread)
    {
      hide AsText, AsU16;
      var length: int := remaining;
      var topic := ReadText();
      if topic.None? {
        return None;
      }
      length := length - 2 - |topic.value|;
      var id: uint16 := 0;
      if Qos(flags) > 0 {
        var n := ReadU16();
        if n.None? {
          return None;
        }
        id := n.value;
        length := length - 2;
      }
      m := Some(PublishStream(flags, id, topic.value, length % 0x1_0000_0000));
    }

    // Lines 187 to 198: seven bits a byte, each group shifted further left.
    method ReadRemainingLength() returns (length: Length)
      modifies this
      ensures length == AsLength(old(unread))
      ensures length.Known? ==> length.rest == unread
    {
      hide ReadVarInt, Shifted, AsLength;
      ghost var start := unread;
      NotShifted(ReadVarInt(start));
      var remaining: nat, lenlen: nat, weight: nat := 0, 0, 1;
      while true
        invariant lenlen <= 4 && lenlen <= |start| && unread == start[lenlen..]
        invariant forall i :: 0 <= i < lenlen ==> start[i] >= 128
        invariant ReadVarInt(start) == Shifted(remaining, weight, ReadVarInt(unread))
        decreases 4 - lenlen
      {
        ghost var before := unread;
        ShiftedStep(remaining, weight, before);
        LengthKnown(start, lenlen);
        var digit := ReadByte();
        if digit.None? {
          return Endless;
        }
        if lenlen >= 4 {
          return Overrun;
        }
        lenlen := lenlen + 1;
        remaining := remaining + Low7(digit.value) * weight;
        weight := weight * 128;
        if digit.value < 128 {
          return Known(remaining, unread);
        }
      }
    }

    // readPacket: the message, or what goes wrong. paused: in the middle of a small packet nothing was available for a
    // moment, and the reader did not wait.
    method ReadPacket() returns (outcome: Outcome, ghost paused: bool)
      modifies this
      ensures outcome == if paused then Undefined else Parse(old(unread))
      ensures outcome.Got? || outcome.NoMessage? ==> outcome.rest == unread
    {
      paused := false;
      hide AsLength, AsU16, FromBuffer, StreamedPublish;
      var first := ReadByte();
      if first.None? {
        return Waiting, paused;
      }
      var code, flags: byte := first.value / 16, first.value % 16;
      var length := ReadRemainingLength();
      match length {
        case Endless => return Waiting, paused;
        case Overrun => return Undefined, paused;
        case Known(remaining, _) =>
          if remaining > 1024 {
            outcome := ReadLarge(code, flags, remaining);
          } else {
            outcome, paused := ReadSmall(code, flags, remaining);
          }
      }
    }

    method ReadLarge(code: byte, flags: byte, remaining: nat) returns (outcome: Outcome)
      requires remaining > 1024
      modifies this
      ensures outcome == ParseBody(code, flags, remaining, old(unread))
      ensures outcome.Got? || outcome.NoMessage? ==> outcome.rest == unread
    {
      hide AsU16, StreamedPublish;
      if code == 3 {
        var m := PublishFromStream(flags, remaining);
        return if m.None? then Waiting else Got(m.value, unread);
      } else if code == 9 {
        var id := ReadU16();
        return if id.None? then Waiting else Got(SubAckStream(id.value, remaining - 2), unread);
      }
      return NoMessage(unread);
    }

    // How much of what is still to come has arrived by now.
    method Available() returns (n: nat)
      ensures n <= |unread|
    {
      n :| n <= |unread|;
    }

    // Lines 214 to 271. The loop takes what is available, in any portions, and ends early when nothing is: then the rest
    // of the buffer stays uninitialised, and the rest of the packet in the stream.
    method ReadSmall(code: byte, flags: byte, remaining: nat) returns (outcome: Outcome, ghost paused: bool)
      requires remaining <= 1024
      modifies this
      ensures outcome == if paused then Undefined else ParseBody(code, flags, remaining, old(unread))
      ensures outcome.Got? || outcome.NoMessage? ==> outcome.rest == unread
      ensures paused ==> exists k :: 0 <= k < remaining && k <= |old(unread)| && unread == old(unread)[k..]
    {
      hide FromBuffer;
      var data := new byte[remaining];
      var rem: nat := remaining;
      ghost var start := unread;
      var n := Available();
      while n > 0 && rem > 0
        invariant rem <= remaining <= rem + |start| && unread == start[remaining - rem..] && n <= |unread|
        invariant data[..remaining - rem] == start[..remaining - rem]
        decreases rem
      {
        var size: nat :| 0 < size <= n && size <= rem;
        Receive(data, remaining - rem, size, start);
        rem := rem - size;
        n := Available();
      }
      paused := rem > 0;
      if rem > 0 {
        return Undefined, paused;
      }
      assert data[..] == data[..remaining];
      var m := MessageFromBuffer(code, flags, data);
      outcome := if m.None? then Undefined else Got(m.value, unread);
    }

    // One call of read, for the next so many bytes.
    method Receive(data: array<byte>, at: nat, size: nat, ghost start: bytes)
      requires at + size <= data.Length && size <= |unread| && at <= |start| && unread == start[at..]
      requires data[..at] == start[..at]
      modifies this, data
      ensures at + size <= |start| && unread == start[at + size..] && data[..at + size] == start[..at + size]
    {
      ghost var before := data[..at];
      forall i | 0 <= i < size {
        data[at + i] := unread[i];
      }
      assert data[..at] == before;
      assert forall i :: at <= i < at + size ==> data[i] == unread[i - at] == start[i];
      unread := unread[size..];
    }
  }

  // The constructors that readPacket chooses from by the packet type.
  method MessageFromBuffer(code: byte, flags: byte, data: array<byte>) returns (m: Option<Message>)
    ensures m == FromBuffer(code, flags, data[..])
  {
    hide BufferedPublish;
    match code {
      case 3 => m := PublishFromBuffer(flags, data);
      case 12 => m := Some(PingReq);
      case 13 => m := Some(PingResp);
      case _ =>
        if data.Length < 2 {
          return None;
        }
        var id := FromU16(data[0], data[1]);
        match code {
          case 2 => m := Some(ConnAck(data[0] % 2 == 1, data[1]));
          case 4 => m := Some(PubAck(id));
          case 5 => m := Some(PubRec(id));
          case 6 => m := Some(PubRel(id));
          case 7 => m := Some(PubComp(id));
          case 9 => m := Some(SubAck(id, data[2..]));
          case 11 => m := Some(UnsubAck(id));
          case _ => m := None;
        }
    }
  }

  ghost function Shifted(low: nat, weight: nat, high: Option<(nat, bytes)>): Option<(nat, bytes)>
  {
    match high
    case None => None
    case Some(r) => Some((low + r.0 * weight, r.1))
  }

  // A byte without its top bit.
  function Low7(b: byte): nat { if b < 128 then b else b - 128 }

  lemma NotShifted(r: Option<(nat, bytes)>)
    ensures Shifted(0, 1, r) == r
  {
  }

  // The first lenlen bytes say that more follow.
  lemma LengthKnown(s: bytes, lenlen: nat)
    requires lenlen <= 4 && lenlen <= |s| && forall i :: 0 <= i < lenlen ==> s[i] >= 128
    ensures lenlen == 4 && |s| > 4 ==> AsLength(s) == Overrun
    ensures |s| == lenlen || (lenlen < 4 && s[lenlen] < 128) ==>
              AsLength(s) == if ReadVarInt(s).None? then Endless else Known(ReadVarInt(s).value.0, ReadVarInt(s).value.1)
  {
    hide ReadVarInt;
  }

  lemma ShiftedStep(low: nat, weight: nat, s: bytes)
    ensures s == [] ==> Shifted(low, weight, ReadVarInt(s)) == None
    ensures s != [] && s[0] < 128 ==>
              Shifted(low, weight, ReadVarInt(s)) == Some((low + Low7(s[0]) * weight, s[1..]))
    ensures s != [] && s[0] >= 128 ==>
              Shifted(low, weight, ReadVarInt(s))
              == Shifted(low + Low7(s[0]) * weight, weight * 128, ReadVarInt(s[1..]))
  {
    if s != [] && s[0] >= 128 {
      var d := Low7(s[0]);
      match ReadVarInt(s[1..])
      case None =>
      case Some(r) =>
        assert ReadVarInt(s) == Some((d + 128 * r.0, r.1));
        Regroup(low, weight, d, r.0);
    }
  }

  lemma Regroup(low: nat, weight: nat, d: nat, high: nat)
    ensures low + (d + 128 * high) * weight == low + d * weight + high * (weight * 128)
  {
    calc {
      (d + 128 * high) * weight;
      d * weight + (128 * high) * weight;
      d * weight + high * (weight * 128);
    }
  }
}
