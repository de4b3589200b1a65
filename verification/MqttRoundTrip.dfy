/** What is written is what is read, and what a server writes as well: packets against readPacket. */
module MqttRoundTrip {
  import opened Basics
  import opened MqttCodec
  import opened MqttReader
  import opened Mqtt311

  lemma U16Back(n: uint16, rest: bytes)
    ensures AsU16(U16(n) + rest) == Some((n, rest))
  {
    assert (U16(n) + rest)[2..] == rest;
  }

  lemma PrefixedBack(s: bytes, rest: bytes)
    requires |s| < 0x1_0000
    ensures AsText(Prefixed(s) + rest) == Some((s, rest))
  {
    hide AsU16, U16, FromU16, Prefixed;
    PrefixedIs(s);
    U16Back(|s|, s + rest);
    assert Prefixed(s) + rest == U16(|s|) + (s + rest);
    assert (s + rest)[..|s|] == s && (s + rest)[|s|..] == rest;
  }

  lemma PrefixedIs(s: bytes)
    requires |s| < 0x1_0000
    ensures Prefixed(s) == U16(|s|) + s
  {
  }

  lemma TextBack(s: bytes, rest: bytes)
    requires NulFree(s) && |s| < 0x1_0000
    ensures AsText(Text(s) + rest) == Some((s, rest))
  {
    CStringIsWholeExactlyWithoutNul(s);
    PrefixedBack(s, rest);
  }

  // ---- any packet through its fixed header -----------------------------------------------------------------------

  lemma LengthBack(n: nat, rest: bytes)
    requires n < 0x1000_0000
    ensures AsLength(VarInt(n) + rest) == Known(n, rest)
  {
    VarIntRoundTrip(n, rest);
    VarIntEnds(n);
    var s, k := VarInt(n) + rest, |VarInt(n)| - 1;
    assert s[k] < 128 && k < 4 by {
      VarIntLength(n);
    }
  }

  lemma VarIntEnds(n: nat)
    ensures VarInt(n)[|VarInt(n)| - 1] < 128
  {
  }

  lemma FirstByteSplits(m: Message)
    ensures FirstByte(m) / 16 == TypeCode(m) && FirstByte(m) % 16 == HeaderFlags(m)
  {
    hide TypeCode, HeaderFlags;
  }

  lemma HeaderBack(m: Message, rest: bytes)
    requires RemainingLength(m) < 0x1000_0000
    ensures Parse(FixedHeader(m) + rest) == ParseBody(TypeCode(m), HeaderFlags(m), RemainingLength(m), rest)
    ensures TypeCode(m) == FirstOf(m) / 16 && HeaderFlags(m) == FirstOf(m) % 16
  {
    FirstByteIs(m);
    var s := FixedHeader(m) + rest;
    assert s[1..] == VarInt(RemainingLength(m)) + rest;
    LengthBack(RemainingLength(m), rest);
    FirstByteSplits(m);
    hide VarInt, AsLength, RemainingLength, ParseBody, FirstByte, TypeCode, HeaderFlags;
  }

  // ---- PUBLISH ---------------------------------------------------------------------------------------------------

  // The same message as a receiver holds it: the flags that travel, and no id without QoS.
  function Received(m: Message): Message
    requires m.Publish?
  {
    var flags, id := m.flags % 16, if Qos(m.flags) == 0 then 0 else m.packetId;
    if RemainingLength(m) <= 1024 then Publish(flags, id, m.topic, m.payload)
    else PublishStream(flags, id, m.topic, |m.payload|)
  }

  lemma LowFlags(flags: byte)
    ensures Qos(flags % 16) == Qos(flags) && Retain(flags % 16) == Retain(flags) && Dup(flags % 16) == Dup(flags)
  {
    var low, high := flags % 16, flags / 16;
    var retain, dup := low % 2, low / 8;
    var qos := low / 2 - 4 * dup;
    var _, _ := Flags(retain, qos, dup, high), Flags(retain, qos, dup, 0);
    assert flags == Flags(retain, qos, dup, high) && low == Flags(retain, qos, dup, 0);
    hide Qos, Retain, Dup;
  }

  lemma TopicAndIdBack(flags: byte, id: uint16, topic: bytes, rest: bytes)
    requires NulFree(topic) && |topic| < 0x1_0000
    ensures AsTopicAndId(flags, Text(topic) + (if Qos(flags) != 0 then U16(id) else []) + rest)
         == Some((topic, if Qos(flags) == 0 then 0 else id, rest))
  {
    var ids := if Qos(flags) != 0 then U16(id) else [];
    assert Text(topic) + ids + rest == Text(topic) + (ids + rest);
    TextBack(topic, ids + rest);
    U16Back(id, rest);
    hide AsText, AsU16, Text, U16;
    if Qos(flags) == 0 {
      assert ids + rest == rest;
    }
  }

  // Reading a sent PUBLISH gives back topic, QoS, retain, dup, id and payload; a large one leaves the stream exactly
  // at the payload.
  lemma PublishRoundTrip(m: Message, rest: bytes)
    requires m.Publish? && NulFree(m.topic) && |m.topic| < 0x1_0000 && RemainingLength(m) < 0x1000_0000
    ensures Qos(m.flags % 16) == Qos(m.flags) && Retain(m.flags % 16) == Retain(m.flags) && Dup(m.flags % 16) == Dup(m.flags)
    ensures var id := if m.flags / 2 % 4 == 0 then 0 else m.packetId;
            Parse(Encoded(m) + rest)
            == if RemainingLength(m) <= 1024 then Got(Publish(m.flags % 16, id, m.topic, m.payload), rest)
               else Got(PublishStream(m.flags % 16, id, m.topic, |m.payload|), m.payload + rest)
  {
    LowFlags(m.flags);
    HeaderBack(m, VariableHeader(m) + m.payload + rest);
    PublishBodyBack(m, rest);
    Behind(FixedHeader(m), VariableHeader(m), m.payload, rest);
    hide FixedHeader, VariableHeader, RemainingLength, Parse, ParseBody, Retain, Dup;
  }

  lemma Behind(a: bytes, b: bytes, c: bytes, d: bytes)
    ensures a + b + c + d == a + (b + c + d)
  {
  }

  lemma PublishBodyLength(m: Message)
    requires m.Publish? && NulFree(m.topic)
    ensures |VariableHeader(m) + m.payload| == RemainingLength(m)
  {
    TextLength(m.topic);
    hide Text;
  }

  lemma PublishBodyBack(m: Message, rest: bytes)
    requires m.Publish? && NulFree(m.topic) && |m.topic| < 0x1_0000 && RemainingLength(m) < 0x1000_0000
    ensures ParseBody(3, m.flags % 16, RemainingLength(m), VariableHeader(m) + m.payload + rest)
         == Got(Received(m), if RemainingLength(m) <= 1024 then rest else m.payload + rest)
  {
    var flags, ids := m.flags % 16, if Qos(m.flags) != 0 then U16(m.packetId) else [];
    LowFlags(m.flags);
    PublishBodyLength(m);
    assert VariableHeader(m) == Text(m.topic) + ids;
    TextLength(m.topic);
    if RemainingLength(m) <= 1024 {
      TopicAndIdBack(flags, m.packetId, m.topic, m.payload);
      WholeBufferBack(3, flags, Text(m.topic) + ids + m.payload, rest);
    } else {
      StreamedBack(flags, m.packetId, m.topic, m.payload, rest);
    }
    hide VariableHeader, RemainingLength, Qos, Retain, Dup, Text, AsTopicAndId, StreamedPublish;
  }

  lemma StreamedBack(flags: byte, id: uint16, topic: bytes, payload: bytes, rest: bytes)
    requires NulFree(topic) && |topic| < 0x1_0000 && |payload| < 0x1000_0000
    ensures var ids := if Qos(flags) != 0 then U16(id) else [];
            StreamedPublish(flags, Text(topic) + ids + payload + rest, 2 + |topic| + |ids| + |payload|)
            == Got(PublishStream(flags, if Qos(flags) == 0 then 0 else id, topic, |payload|), payload + rest)
  {
    hide AsTopicAndId, Text, Qos, U16, NulFree;
    var ids := if Qos(flags) != 0 then U16(id) else [];
    TopicAndIdBack(flags, id, topic, payload + rest);
    Basics.Regrouped(Text(topic) + ids, payload, rest);
  }

  lemma WholeBufferBack(code: byte, flags: byte, body: bytes, rest: bytes)
    requires |body| <= 1024 && FromBuffer(code, flags, body).Some?
    ensures ParseBody(code, flags, |body|, body + rest) == Got(FromBuffer(code, flags, body).value, rest)
  {
    hide FromBuffer;
    assert (body + rest)[..|body|] == body && (body + rest)[|body|..] == rest;
  }

  // ---- the two PUBLISH constructors ------------------------------------------------------------------------------

  // On any bytes at all that start with enough of them: the constructor that works on the packet's own data and the
  // one that works on the stream agree on flags, topic, id and payload length, and the second leaves the payload.
  lemma ConstructorsAgree(flags: byte, data: bytes, rest: bytes)
    requires |data| < 0x1_0000_0000
    requires BufferedPublish(flags, data).Some?
    ensures var m := BufferedPublish(flags, data).value;
            StreamedPublish(flags, data + rest, |data|)
            == Got(PublishStream(flags, m.packetId, m.topic, |m.payload|), m.payload + rest)
  {
    hide AsTopicAndId, Qos;
    TopicAndIdOfMore(flags, data, rest);
    var r := AsTopicAndId(flags, data).value;
    assert |data| - 2 - |r.0| - (if Qos(flags) != 0 then 2 else 0) == |r.2|;
  }

  lemma TopicAndIdOfMore(flags: byte, data: bytes, rest: bytes)
    requires AsTopicAndId(flags, data).Some?
    ensures var r := AsTopicAndId(flags, data).value;
            && AsTopicAndId(flags, data + rest) == Some((r.0, r.1, r.2 + rest))
            && |data| == 2 + |r.0| + (if Qos(flags) != 0 then 2 else 0) + |r.2|
  {
    hide AsText, Qos;
    var t := AsText(data).value;
    TextOfMore(data, rest);
    if Qos(flags) != 0 {
      assert (t.1 + rest)[2..] == t.1[2..] + rest;
    }
  }

  lemma TextOfMore(data: bytes, rest: bytes)
    requires AsText(data).Some?
    ensures var t := AsText(data).value;
            AsText(data + rest) == Some((t.0, t.1 + rest)) && |data| == 2 + |t.0| + |t.1|
  {
    var r := AsU16(data).value;
    assert (data + rest)[2..] == r.1 + rest;
    assert (r.1 + rest)[..r.0] == r.1[..r.0] && (r.1 + rest)[r.0..] == r.1[r.0..] + rest;
  }

  // Where the packet's data does not hold the topic and id it announces, the streaming constructor goes on into the
  // bytes after the packet, and its payload length wraps below zero.
  lemma StreamedStaysInsideExactlyWhenBufferedDoes(flags: byte, data: bytes, rest: bytes)
    requires |data| < 0x1_0000_0000 - 0x2_0000
    ensures (match StreamedPublish(flags, data + rest, |data|)
             case Got(m, after) => |after| == m.length + |rest|
             case _ => false)
       <==> BufferedPublish(flags, data).Some?
  {
    if BufferedPublish(flags, data).Some? {
      ConstructorsAgree(flags, data, rest);
    } else if AsTopicAndId(flags, data + rest).Some? {
      var r := AsTopicAndId(flags, data + rest).value;
      var used := 2 + |r.0| + if Qos(flags) != 0 then 2 else 0;
      TopicAndIdOfMore(flags, data + rest, []);
      if used <= |data| {
        TopicAndIdOfLess(flags, data, rest);
        assert false;
      }
      hide AsTopicAndId;
    }
  }

  lemma TopicAndIdOfLess(flags: byte, data: bytes, rest: bytes)
    requires AsTopicAndId(flags, data + rest).Some?
    requires 2 + |AsTopicAndId(flags, data + rest).value.0| + (if Qos(flags) != 0 then 2 else 0) <= |data|
    ensures AsTopicAndId(flags, data).Some?
  {
    assert (data + rest)[2..] == data[2..] + rest;
  }

  // ---- acknowledgements ------------------------------------------------------------------------------------------

  lemma AcksRoundTrip(id: uint16, rest: bytes)
    ensures Parse(Encoded(PubRec(id)) + rest) == Got(PubRec(id), rest)
    ensures Parse(Encoded(PubRel(id)) + rest) == Got(PubRel(id), rest)
    ensures Parse(Encoded(PubComp(id)) + rest) == Got(PubComp(id), rest)
    ensures Parse(Encoded(PingReq) + rest) == Got(PingReq, rest)
    ensures Parse(Encoded(PingResp) + rest) == Got(PingResp, rest)
  {
    AckRoundTrip(PubRec(id), id, rest);
    AckRoundTrip(PubRel(id), id, rest);
    AckRoundTrip(PubComp(id), id, rest);
    PingRoundTrip(PingReq, rest);
    PingRoundTrip(PingResp, rest);
  }

  lemma AckRoundTrip(m: Message, id: uint16, rest: bytes)
    requires m == PubRec(id) || m == PubRel(id) || m == PubComp(id)
    ensures Parse(Encoded(m) + rest) == Got(m, rest)
  {
    hide VariableHeader, PayloadBytes, RemainingLength, FixedHeader, Parse, ParseBody, FromBuffer, U16, TypeCode, HeaderFlags;
    AckParts(m, id);
    HeaderBack(m, U16(id) + rest);
    WholeBufferBack(TypeCode(m), HeaderFlags(m), U16(id), rest);
    assert FixedHeader(m) + U16(id) + [] + rest == FixedHeader(m) + (U16(id) + rest);
  }

  lemma AckParts(m: Message, id: uint16)
    requires m == PubRec(id) || m == PubRel(id) || m == PubComp(id)
    ensures VariableHeader(m) == U16(id) && PayloadBytes(m) == [] && RemainingLength(m) == 2
    ensures FromBuffer(TypeCode(m), HeaderFlags(m), U16(id)) == Some(m)
  {
    hide AsU16, U16;
    U16Back(id, []);
    assert U16(id) + [] == U16(id);
  }

  lemma PingRoundTrip(m: Message, rest: bytes)
    requires m == PingReq || m == PingResp
    ensures Parse(Encoded(m) + rest) == Got(m, rest)
  {
    hide VariableHeader, PayloadBytes, RemainingLength, FixedHeader, Parse, ParseBody, FromBuffer, TypeCode, HeaderFlags;
    PingParts(m);
    HeaderBack(m, rest);
    WholeBufferBack(TypeCode(m), HeaderFlags(m), [], rest);
    assert FixedHeader(m) + [] + [] + rest == FixedHeader(m) + rest && [] + rest == rest;
  }

  lemma PingParts(m: Message)
    requires m == PingReq || m == PingResp
    ensures VariableHeader(m) == [] && PayloadBytes(m) == [] && RemainingLength(m) == 0
    ensures FromBuffer(TypeCode(m), HeaderFlags(m), []) == Some(m)
  {
  }

  // ---- packets as the standard lays them out ---------------------------------------------------------------------

  // Any packet: the reader takes its length for what it says.
  lemma AnyPacketReads(first: byte, l: bytes, n: nat, rest: bytes)
    requires LengthIs(l, n)
    ensures Parse([first] + l + rest) == ParseBody(first / 16, first % 16, n, rest)
  {
    hide ParseBody, LengthIs, AsLength;
    LengthReads(l, n, rest);
    assert ([first] + l + rest)[1..] == l + rest;
  }

  lemma LengthReads(l: bytes, n: nat, rest: bytes)
    requires LengthIs(l, n)
    ensures AsLength(l + rest) == Known(n, rest) && n < 0x1000_0000
  {
    hide ReadVarInt;
    var s := l + rest;
    DigitReads(s);
    DigitReads(s[1..]);
    assert |l| >= 2 ==> s[1..][1..] == s[2..];
    if |l| >= 3 {
      DigitReads(s[2..]);
      assert s[2..][1..] == s[3..];
    }
    if |l| == 4 {
      DigitReads(s[3..]);
      assert s[3..][1..] == s[4..];
    }
    assert s[|l|..] == rest;
  }

  lemma DigitReads(s: bytes)
    ensures s != [] && s[0] < 128 ==> ReadVarInt(s) == Some((s[0], s[1..]))
    ensures s != [] && s[0] >= 128 && ReadVarInt(s[1..]).Some? ==>
              ReadVarInt(s) == Some((s[0] as int - 128 + 128 * ReadVarInt(s[1..]).value.0, ReadVarInt(s[1..]).value.1))
  {
  }

  // The replies that carry an id, and the pings: type, length 2, id.
  lemma RepliesRead(hi: byte, lo: byte, rest: bytes)
    ensures Parse([0x20, 2, hi, lo] + rest) == Got(ConnAck(hi % 2 == 1, lo), rest)
    ensures Parse([0x40, 2, hi, lo] + rest) == Got(PubAck(256 * hi as int + lo as int), rest)
    ensures Parse([0x50, 2, hi, lo] + rest) == Got(PubRec(256 * hi as int + lo as int), rest)
    ensures Parse([0x62, 2, hi, lo] + rest) == Got(PubRel(256 * hi as int + lo as int), rest)
    ensures Parse([0x70, 2, hi, lo] + rest) == Got(PubComp(256 * hi as int + lo as int), rest)
    ensures Parse([0xB0, 2, hi, lo] + rest) == Got(UnsubAck(256 * hi as int + lo as int), rest)
    ensures Parse([0xC0, 0] + rest) == Got(PingReq, rest) && Parse([0xD0, 0] + rest) == Got(PingResp, rest)
  {
    hide Parse, ParseBody;
    ReplyReads(0x20, hi, lo, rest);
    ReplyReads(0x40, hi, lo, rest);
    ReplyReads(0x50, hi, lo, rest);
    ReplyReads(0x62, hi, lo, rest);
    ReplyReads(0x70, hi, lo, rest);
    ReplyReads(0xB0, hi, lo, rest);
    PingReads(0xC0, rest);
    PingReads(0xD0, rest);
  }

  lemma ReplyReads(first: byte, hi: byte, lo: byte, rest: bytes)
    requires FromBuffer(first / 16, first % 16, [hi, lo]).Some?
    ensures Parse([first, 2, hi, lo] + rest) == Got(FromBuffer(first / 16, first % 16, [hi, lo]).value, rest)
  {
    hide Parse, ParseBody, FromBuffer;
    AnyPacketReads(first, [2], 2, [hi, lo] + rest);
    assert [first, 2, hi, lo] + rest == [first] + [2] + ([hi, lo] + rest);
    WholeBufferBack(first / 16, first % 16, [hi, lo], rest);
  }

  lemma PingReads(first: byte, rest: bytes)
    requires FromBuffer(first / 16, first % 16, []).Some?
    ensures Parse([first, 0] + rest) == Got(FromBuffer(first / 16, first % 16, []).value, rest)
  {
    hide Parse, ParseBody, FromBuffer;
    AnyPacketReads(first, [0], 0, [] + rest);
    assert [first, 0] + rest == [first] + [0] + ([] + rest) && [] + rest == rest;
    WholeBufferBack(first / 16, first % 16, [], rest);
  }

  // A SUBACK and its return codes; of a long one the codes are left in the stream.
  lemma SubAckReads(l: bytes, hi: byte, lo: byte, rcs: bytes, rest: bytes)
    requires LengthIs(l, 2 + |rcs|)
    ensures Parse([0x90] + l + [hi, lo] + rcs + rest)
         == if |rcs| <= 1022 then Got(SubAck(256 * hi as int + lo as int, rcs), rest)
            else Got(SubAckStream(256 * hi as int + lo as int, |rcs|), rcs + rest)
  {
    hide Parse, LengthIs;
    var body := [hi, lo] + rcs;
    AnyPacketReads(0x90, l, 2 + |rcs|, body + rest);
    assert [0x90] + l + [hi, lo] + rcs + rest == [0x90] + l + (body + rest);
    assert body[2..] == rcs && (body + rest)[2..] == rcs + rest;
    if |rcs| <= 1022 {
      WholeBufferBack(9, 0, body, rest);
    }
  }

  // A PUBLISH from a server, with any flags in the low half of its first byte.
  lemma PublishReads(flags: byte, l: bytes, topic: bytes, id: uint16, payload: bytes, rest: bytes)
    requires flags < 16 && |topic| < 0x1_0000
    requires LengthIs(l, |PublishHeader(flags, id, topic)| + |payload|)
    ensures var seen := if flags / 2 % 4 == 0 then 0 else id;
            Parse([0x30 + flags] + l + PublishHeader(flags, id, topic) + payload + rest)
            == if |PublishHeader(flags, id, topic)| + |payload| <= 1024 then Got(Publish(flags, seen, topic, payload), rest)
               else Got(PublishStream(flags, seen, topic, |payload|), payload + rest)
  {
    hide Parse, LengthIs, PublishHeader, AsTopicAndId, Qos;
    var header := PublishHeader(flags, id, topic);
    AnyPacketReads(0x30 + flags, l, |header| + |payload|, header + payload + rest);
    assert [0x30 + flags] + l + header + payload + rest == [0x30 + flags] + l + (header + payload + rest);
    LengthReads(l, |header| + |payload|, []);
    HeaderReads(flags, id, topic, payload);
    HeaderReads(flags, id, topic, payload + rest);
    assert header + payload + rest == header + (payload + rest);
    if |header| + |payload| <= 1024 {
      WholeBufferBack(3, flags, header + payload, rest);
    }
  }

  lemma HeaderReads(flags: byte, id: uint16, topic: bytes, rest: bytes)
    requires |topic| < 0x1_0000
    ensures AsTopicAndId(flags, PublishHeader(flags, id, topic) + rest)
         == Some((topic, if flags / 2 % 4 == 0 then 0 else id, rest))
    ensures |PublishHeader(flags, id, topic)| == 2 + |topic| + if Qos(flags) != 0 then 2 else 0
  {
    hide AsText, AsU16, Field;
    var tail := if flags / 2 % 4 == 0 then [] else Number(id);
    FieldLength(topic);
    PrefixedBack(topic, tail + rest);
    assert Field(topic) + tail + rest == Field(topic) + (tail + rest);
    U16Back(id, rest);
    assert [] + rest == rest;
  }

  // PublishAck has no variable header of its own, so every PUBACK goes out as the same two bytes, and the reader of
  // this very library runs past the end of such a packet. A PUBACK as section 3.4 prescribes it reads well.
  lemma PubAckLosesItsId(id: uint16, rest: bytes)
    ensures Encoded(PubAck(id)) == [0x40, 0]
    ensures Parse(Encoded(PubAck(id)) + rest) == Undefined
    ensures Parse([0x40, 2] + U16(id) + rest) == Got(PubAck(id), rest)
  {
    hide Encoded, Parse;
    EmptyPubAck(id);
    ShortPubAckFails(rest);
    RepliesRead(id / 256, id % 256, rest);
    assert [0x40, 2] + U16(id) + rest == [0x40, 2, id / 256, id % 256] + rest;
  }

  lemma EmptyPubAck(id: uint16)
    ensures Encoded(PubAck(id)) == [0x40, 0]
  {
    ShortVarInts();
    hide VarInt;
  }

  lemma ShortPubAckFails(rest: bytes)
    ensures Parse([0x40, 0] + rest) == Undefined
  {
    hide Parse;
    AnyPacketReads(0x40, [0], 0, rest);
    assert [0x40, 0] + rest == [0x40] + [0] + rest;
  }
}
