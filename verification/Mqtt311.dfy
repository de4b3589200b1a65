/** The packets a client sends, byte for byte as sections 2 and 3 of MQTT Version 3.1.1 lay them out. Nothing in the
    definitions here is taken from the library; they are what its packets are compared with. */
module Mqtt311 {
  import opened MqttCodec

  // Sections 1.5.2 and 1.5.3.
  function Number(n: uint16): bytes { [n / 256, n % 256] }

  function Field(s: bytes): bytes { [|s| / 256 % 256, |s| % 256] + s }

  // Section 2.2.3: one to four bytes, the top bit on all but the last, the low seven bits first.
  predicate LengthIs(l: bytes, n: nat)
  {
    || (|l| == 1 && l[0] < 128 && n == l[0])
    || (|l| == 2 && l[0] >= 128 > l[1] && n == Low(l[0]) + 128 * l[1] as int)
    || (|l| == 3 && l[0] >= 128 && l[1] >= 128 > l[2] && n == Low(l[0]) + 128 * Low(l[1]) + 16384 * l[2] as int)
    || (|l| == 4 && l[0] >= 128 && l[1] >= 128 && l[2] >= 128 > l[3]
        && n == Low(l[0]) + 128 * Low(l[1]) + 16384 * Low(l[2]) + 2097152 * l[3] as int)
  }

  function Low(b: byte): int { b - 128 }

  ghost predicate PacketIs(packet: bytes, first: byte, length: nat, body: bytes)
  {
    exists l :: LengthIs(l, length) && packet == [first] + l + body
  }

  // Section 3.1.2, with the connect flags of its figure 3.4.
  function ConnectHeader(m: Message): bytes
    requires m.Connect?
  {
    [0, 4, 77, 81, 84, 84, 4]
    + [(if m.cleanSession then 0x02 else 0)
       + (if m.willTopic == [] then 0
          else 0x04 + (if m.willQos == 0 then 0 else if m.willQos == 1 then 0x08 else 0x10) + (if m.willRetain then 0x20 else 0))
       + (if m.username == [] then 0 else if m.password == [] then 0x80 else 0xC0)]
    + Number(m.keepalive)
  }

  // Section 3.1.3.
  function ConnectFields(m: Message): bytes
    requires m.Connect?
  {
    Field(m.clientId)
    + (if m.willTopic == [] then [] else Field(m.willTopic) + Field(m.willMessage))
    + (if m.username == [] then [] else Field(m.username) + if m.password == [] then [] else Field(m.password))
  }

  // Section 3.3.2: the packet id is there for QoS 1 and 2, which stand in the bits 1 and 2.
  function PublishHeader(flags: byte, id: uint16, topic: bytes): bytes
  {
    Field(topic) + if flags / 2 % 4 == 0 then [] else Number(id)
  }

  // The types and flags of section 2.2.
  ghost function FirstOf(m: Message): int
  {
    match m
    case Connect(_, _, _, _, _, _, _, _, _) => 0x10
    case ConnAck(_, _) => 0x20
    case Publish(flags, _, _, _) => 0x30 + flags as int % 16
    case PublishFrom(flags, _, _, _) => 0x30 + flags as int % 16
    case PublishStream(_, _, _, _) => 0x30
    case PubAck(_) => 0x40
    case PubRec(_) => 0x50
    case PubRel(_) => 0x62
    case PubComp(_) => 0x70
    case Subscribe(_, _) => 0x82
    case SubAck(_, _) => 0x90
    case SubAckStream(_, _) => 0x90
    case Unsubscribe(_, _) => 0xA2
    case UnsubAck(_) => 0xB0
    case PingReq => 0xC0
    case PingResp => 0xD0
    case Disconnect => 0xE0
  }

  lemma FirstByteIs(m: Message)
    ensures FirstByte(m) == FirstOf(m)
  {
  }

  // The packets of section 3. The library leaves the id out of a PUBACK. What only a server sends, and large
  // messages received, are not packets of a client.
  ghost predicate Prescribed(m: Message, packet: bytes)
  {
    match m
    case Connect(_, _, _, _, _, _, _, _, _) =>
      PacketIs(packet, 0x10, |ConnectHeader(m)| + |ConnectFields(m)|, ConnectHeader(m) + ConnectFields(m))
    case Publish(flags, id, topic, payload) =>
      PacketIs(packet, 0x30 + flags % 16, |PublishHeader(flags, id, topic)| + |payload|, PublishHeader(flags, id, topic) + payload)
    case PublishFrom(flags, id, topic, length) =>
      PacketIs(packet, 0x30 + flags % 16, |PublishHeader(flags, id, topic)| + length, PublishHeader(flags, id, topic))
    case PubAck(_) => packet == [0x40, 0]
    case PubRec(id) => packet == [0x50, 2] + Number(id)
    case PubRel(id) => packet == [0x62, 2] + Number(id)
    case PubComp(id) => packet == [0x70, 2] + Number(id)
    case Subscribe(id, buffer) => PacketIs(packet, 0x82, 2 + |buffer|, Number(id) + buffer)
    case Unsubscribe(id, buffer) => PacketIs(packet, 0xA2, 2 + |buffer|, Number(id) + buffer)
    case PingReq => packet == [0xC0, 0]
    case PingResp => packet == [0xD0, 0]
    case Disconnect => packet == [0xE0, 0]
    case _ => true
  }

  // ---- what the library puts together ----------------------------------------------------------------------------

  lemma VarIntIs(n: nat)
    requires n < 0x1000_0000
    ensures LengthIs(VarInt(n), n)
  {
    var a, b, c := n / 128, n / 128 / 128, n / 128 / 128 / 128;
    if n >= 128 {
      assert VarInt(n) == [n % 128 + 128] + VarInt(a);
      if a >= 128 {
        assert VarInt(a) == [a % 128 + 128] + VarInt(b);
        if b >= 128 {
          assert VarInt(b) == [b % 128 + 128] + VarInt(c);
        }
      }
    }
  }

  lemma BlockIsField(s: bytes)
    ensures Prefixed(s) == Field(s)
  {
    var n := |s| % 0x1_0000;
    assert n / 256 == |s| / 256 % 256;
  }

  lemma HeaderIs(m: Message, body: bytes)
    requires RemainingLength(m) < 0x1000_0000 && VariableHeader(m) + PayloadBytes(m) == body
    ensures PacketIs(Encoded(m), FirstByte(m), RemainingLength(m), body)
  {
    hide LengthIs, RemainingLength, FirstByte, VariableHeader, PayloadBytes, VarInt;
    var l := VarInt(RemainingLength(m));
    VarIntIs(RemainingLength(m));
    assert Encoded(m) == [FirstByte(m)] + l + body;
  }

  lemma ConnectIs(m: Message)
    requires m.Connect? && NulFreeMessage(m)
    ensures VariableHeader(m) == ConnectHeader(m) && PayloadBytes(m) == ConnectFields(m)
    ensures RemainingLength(m) == |ConnectHeader(m)| + |ConnectFields(m)|
  {
    hide Prefixed, Text, Field, CString, NulFree;
    NameIs();
    FieldLength(m.clientId);
    FieldLength(m.willTopic);
    FieldLength(m.willMessage);
    FieldLength(m.username);
    FieldLength(m.password);
    assert VariableHeader(m) == ConnectHeader(m);
  }

  lemma PublishIs(flags: byte, id: uint16, topic: bytes)
    requires NulFree(topic)
    ensures Text(topic) + (if Qos(flags) != 0 then U16(id) else []) == PublishHeader(flags, id, topic)
    ensures |PublishHeader(flags, id, topic)| == 2 + |topic| + if Qos(flags) != 0 then 2 else 0
  {
    hide Text, Field;
    FieldLength(topic);
  }

  lemma FieldLength(s: bytes)
    ensures |Field(s)| == 2 + |s| && Prefixed(s) == Field(s)
    ensures NulFree(s) ==> Text(s) == Field(s)
  {
    BlockIsField(s);
    CStringIsWholeExactlyWithoutNul(s);
  }

  lemma NameIs()
    ensures Text(MQTT_NAME) == [0, 4, 77, 81, 84, 84]
  {
    CStringIsWholeExactlyWithoutNul(MQTT_NAME);
  }

  lemma SentAsPrescribed(m: Message)
    requires RemainingLength(m) < 0x1000_0000 && NulFreeMessage(m)
    ensures Prescribed(m, Encoded(m))
  {
    hide PacketIs, ConnectHeader, ConnectFields, PublishHeader, Text, Qos, NulFree, VarInt;
    match m
    case Connect(_, _, _, _, _, _, _, _, _) =>
      ConnectIs(m);
      HeaderIs(m, ConnectHeader(m) + ConnectFields(m));
    case Publish(flags, id, topic, payload) =>
      PublishIs(flags, id, topic);
      HeaderIs(m, PublishHeader(flags, id, topic) + payload);
    case PublishFrom(flags, id, topic, _) =>
      PublishIs(flags, id, topic);
      HeaderIs(m, PublishHeader(flags, id, topic));
    case Subscribe(id, buffer) =>
      HeaderIs(m, Number(id) + buffer);
    case Unsubscribe(id, buffer) =>
      HeaderIs(m, Number(id) + buffer);
    case _ =>
      ShortVarInts();
  }

  lemma ShortVarInts()
    ensures VarInt(0) == [0] && VarInt(2) == [2]
  {
  }
}
