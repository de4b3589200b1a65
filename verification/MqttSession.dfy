/** CONNECT and SUBSCRIBE against decoders written from sections 3.1 and 3.8 of MQTT Version 3.1.1. */
module MqttSession {
  import opened Basics
  import opened MqttCodec
  import opened MqttReader
  import opened MqttRoundTrip
  import opened MqttWriter

  // ---- the remaining length of every packet ----------------------------------------------------------------------

  // A receiver that decodes the remaining length of a packet gets the sum of the length functions, and it is the
  // number of bytes that follow.
  lemma RemainingLengthDecodes(m: Message)
    requires RemainingLength(m) < 0x1000_0000 && NulFreeMessage(m)
    ensures AsLength(Encoded(m)[1..]) == Known(VariableHeaderLength(m) + PayloadLength(m), VariableHeader(m) + PayloadBytes(m))
    ensures !m.PublishFrom? ==> |VariableHeader(m) + PayloadBytes(m)| == VariableHeaderLength(m) + PayloadLength(m)
    ensures m.PublishFrom? ==> |VariableHeader(m) + PayloadBytes(m)| == VariableHeaderLength(m)
  {
    var header, rest, n := [FirstByte(m)] + VarInt(RemainingLength(m)), VariableHeader(m), RemainingLength(m);
    Regrouped(header, rest, PayloadBytes(m));
    LengthBack(n, rest + PayloadBytes(m));
    LengthsAgreeExactlyWithoutNul(m);
    VarIntLength(n);
    assert Encoded(m) == header + rest + PayloadBytes(m);
    HeaderTail(FirstByte(m), VarInt(n), rest + PayloadBytes(m));
    hide AsLength, VarInt, FixedHeaderLength, VariableHeader, PayloadBytes, VariableHeaderLength, PayloadLength, Encoded, FirstByte;
  }

  lemma HeaderTail(first: byte, length: bytes, body: bytes)
    ensures ([first] + length + body)[1..] == length + body
  {
  }

  // ---- CONNECT ---------------------------------------------------------------------------------------------------

  datatype Will = Will(qos: nat, retain: bool, topic: bytes, message: bytes)

  datatype Session = Session(cleanSession: bool, keepalive: uint16, clientId: bytes, will: Option<Will>,
                             user: Option<bytes>, password: Option<bytes>)

  // The session a CONNECT asks for.
  function SessionOf(m: Message): Session
    requires m.Connect?
  {
    Session(m.cleanSession, m.keepalive, m.clientId,
            if m.willTopic == [] then None
            else Some(Will(if m.willQos > 2 then 2 else m.willQos, m.willRetain, m.willTopic, m.willMessage)),
            if m.username == [] then None else Some(m.username),
            if m.username == [] || m.password == [] then None else Some(m.password))
  }

  predicate Bit(flags: byte, weight: nat)
    requires weight > 0
  {
    flags / weight % 2 == 1
  }

  // Reads a text field exactly if it is announced.
  function Announced(present: bool, s: bytes): Option<(Option<bytes>, bytes)>
  {
    if !present then Some((None, s))
    else match AsText(s)
         case None => None
         case Some(t) => Some((Some(t.0), t.1))
  }

  // Section 3.1.3: the flags alone say which payload fields follow, in this order, and nothing follows them.
  function DecodeConnectPayload(flags: byte, keepalive: uint16, s: bytes): Option<Session>
  {
    match AsText(s)
    case None => None
    case Some(id) =>
      match Announced(Bit(flags, 4), id.1)
      case None => None
      case Some(topic) =>
        match Announced(Bit(flags, 4), topic.1)
        case None => None
        case Some(message) =>
          match Announced(Bit(flags, 128), message.1)
          case None => None
          case Some(user) =>
            match Announced(Bit(flags, 64), user.1)
            case None => None
            case Some(password) =>
              if password.1 != [] then None
              else Some(Session(Bit(flags, 2), keepalive, id.0,
                                if topic.0.None? || message.0.None? then None
                                else Some(Will(flags / 8 % 4, Bit(flags, 32), topic.0.value, message.0.value)),
                                user.0, password.0))
  }

  // Section 3.1.2: the protocol name, level 4, the flags with bit 0 reserved, the keep alive.
  function DecodeConnect(s: bytes): Option<Session>
  {
    match AsText(s)
    case None => None
    case Some(name) =>
      if name.0 != [77, 81, 84, 84] || |name.1| < 4 || name.1[0] != 4 || Bit(name.1[1], 1) then None
      else DecodeConnectPayload(name.1[1], FromU16(name.1[2], name.1[3]), name.1[4..])
  }

  predicate FitsConnect(m: Message)
    requires m.Connect?
  {
    && |m.clientId| < 0x1_0000 && |m.willTopic| < 0x1_0000 && |m.willMessage| < 0x1_0000
    && |m.username| < 0x1_0000 && |m.password| < 0x1_0000
  }

  lemma FlagDigits(c: nat, w: nat, q: nat, r: nat, p: nat, u: nat)
    requires c < 2 && w < 2 && q < 4 && r < 2 && p < 2 && u < 2
    ensures var flags: byte := 2 * c + 4 * w + 8 * q + 32 * r + 64 * p + 128 * u;
            && Bit(flags, 2) == (c == 1) && Bit(flags, 4) == (w == 1) && flags / 8 % 4 == q && Bit(flags, 32) == (r == 1)
            && Bit(flags, 64) == (p == 1) && Bit(flags, 128) == (u == 1) && !Bit(flags, 1)
  {
    var flags: byte := 2 * c + 4 * w + 8 * q + 32 * r + 64 * p + 128 * u;
    assert flags / 2 == c + 2 * w + 4 * q + 16 * r + 32 * p + 64 * u;
    assert flags / 4 == w + 2 * q + 8 * r + 16 * p + 32 * u;
    assert flags / 8 == q + 4 * r + 8 * p + 16 * u;
    assert flags / 32 == r + 2 * p + 4 * u;
    assert flags / 64 == p + 2 * u;
  }

  lemma ConnectFlagBits(m: Message)
    requires m.Connect?
    ensures var flags := ConnectFlags(m);
            && Bit(flags, 2) == m.cleanSession && Bit(flags, 4) == HasWill(m) && !Bit(flags, 1)
            && Bit(flags, 128) == HasUser(m) && Bit(flags, 64) == HasPassword(m)
            && (HasWill(m) ==> flags / 8 % 4 == (if m.willQos > 2 then 2 else m.willQos) && Bit(flags, 32) == m.willRetain)
  {
    FlagDigits(if m.cleanSession then 1 else 0, if HasWill(m) then 1 else 0,
               if !HasWill(m) then 0 else if m.willQos > 2 then 2 else m.willQos,
               if HasWill(m) && m.willRetain then 1 else 0, if HasPassword(m) then 1 else 0, if HasUser(m) then 1 else 0);
    hide Bit;
  }

  lemma AnnouncedText(present: bool, field: bytes, rest: bytes)
    requires NulFree(field) && |field| < 0x1_0000
    ensures Announced(present, (if present then Text(field) else []) + rest)
         == Some((if present then Some(field) else None, rest))
  {
    TextBack(field, rest);
    hide AsText, Text;
    assert [] + rest == rest;
  }

  lemma AnnouncedBlock(present: bool, field: bytes, rest: bytes)
    requires |field| < 0x1_0000
    ensures Announced(present, (if present then Prefixed(field) else []) + rest)
         == Some((if present then Some(field) else None, rest))
  {
    PrefixedBack(field, rest);
    hide AsText, Prefixed;
    assert [] + rest == rest;
  }

  function If(present: bool, s: bytes): bytes
  {
    if present then s else []
  }

  lemma PayloadInOrder(m: Message)
    requires m.Connect?
    ensures PayloadBytes(m)
         == Text(m.clientId)
            + (If(HasWill(m), Text(m.willTopic))
               + (If(HasWill(m), Prefixed(m.willMessage))
                  + (If(HasUser(m), Text(m.username)) + (If(HasPassword(m), Text(m.password)) + []))))
  {
    hide Text, Prefixed;
  }

  lemma DecodeSteps(flags: byte, session: Session, s0: bytes, s1: bytes, s2: bytes, s3: bytes, s4: bytes)
    requires AsText(s0) == Some((session.clientId, s1))
    requires Announced(Bit(flags, 4), s1) == Some((if session.will.None? then None else Some(session.will.value.topic), s2))
    requires Announced(Bit(flags, 4), s2) == Some((if session.will.None? then None else Some(session.will.value.message), s3))
    requires Announced(Bit(flags, 128), s3) == Some((session.user, s4))
    requires Announced(Bit(flags, 64), s4) == Some((session.password, []))
    requires Bit(flags, 2) == session.cleanSession
    requires session.will.Some? ==> flags / 8 % 4 == session.will.value.qos && Bit(flags, 32) == session.will.value.retain
    ensures DecodeConnectPayload(flags, session.keepalive, s0) == Some(session)
  {
    hide AsText, Announced, Bit;
  }

  lemma PayloadDecodes(m: Message)
    requires m.Connect? && NulFreeMessage(m) && FitsConnect(m)
    ensures DecodeConnectPayload(ConnectFlags(m), m.keepalive, PayloadBytes(m)) == Some(SessionOf(m))
  {
    PayloadInOrder(m);
    ConnectFlagBits(m);
    hide ConnectFlags, PayloadBytes, AsText, Announced, Bit, Text, Prefixed;
    var flags, password := ConnectFlags(m), if HasPassword(m) then m.password else [];
    var s4 := If(HasPassword(m), Text(m.password)) + [];
    var s3 := If(HasUser(m), Text(m.username)) + s4;
    var s2 := If(HasWill(m), Prefixed(m.willMessage)) + s3;
    var s1 := If(HasWill(m), Text(m.willTopic)) + s2;
    assert AsText(Text(m.clientId) + s1) == Some((m.clientId, s1)) by {
      TextBack(m.clientId, s1);
    }
    assert Announced(HasWill(m), s1) == Some((if HasWill(m) then Some(m.willTopic) else None, s2)) by {
      AnnouncedText(HasWill(m), m.willTopic, s2);
    }
    assert Announced(HasWill(m), s2) == Some((if HasWill(m) then Some(m.willMessage) else None, s3)) by {
      AnnouncedBlock(HasWill(m), m.willMessage, s3);
    }
    assert Announced(HasUser(m), s3) == Some((if HasUser(m) then Some(m.username) else None, s4)) by {
      AnnouncedText(HasUser(m), m.username, s4);
    }
    assert Announced(HasPassword(m), s4) == Some((if HasPassword(m) then Some(m.password) else None, [])) by {
      AnnouncedText(HasPassword(m), password, []);
    }
    hide DecodeConnectPayload, If, NulFree;
    DecodeSteps(flags, SessionOf(m), PayloadBytes(m), s1, s2, s3, s4);
  }

  // A whole packet behind its first byte: the length and as many bytes.
  function DecodePacket(first: byte, packet: bytes): Option<bytes>
  {
    if packet == [] || packet[0] != first then None
    else match AsLength(packet[1..])
         case Known(n, body) => if n == |body| then Some(body) else None
         case _ => None
  }

  lemma PacketDecodes(m: Message, first: byte)
    requires RemainingLength(m) < 0x1000_0000 && NulFreeMessage(m) && !m.PublishFrom? && first == FirstByte(m)
    ensures DecodePacket(first, Encoded(m)) == Some(VariableHeader(m) + PayloadBytes(m))
  {
    hide AsLength, VariableHeader, PayloadBytes, RemainingLength, NulFreeMessage, FirstByte, VarInt;
    RemainingLengthDecodes(m);
  }

  // Section 3.1.
  function DecodeConnectPacket(packet: bytes): Option<Session>
  {
    match DecodePacket(0x10, packet)
    case None => None
    case Some(body) => DecodeConnect(body)
  }

  // What a broker decodes from a CONNECT is the session asked for, field by field.
  lemma ConnectRoundTrip(m: Message)
    requires m.Connect? && NulFreeMessage(m) && FitsConnect(m)
    ensures DecodeConnectPacket(Encoded(m)) == Some(SessionOf(m))
  {
    hide DecodePacket, DecodeConnect, SessionOf, NulFreeMessage, FitsConnect, Encoded, VariableHeader, PayloadBytes;
    ConnectFits(m);
    PacketDecodes(m, 0x10);
    ConnectBodyDecodes(m);
  }

  lemma ConnectFits(m: Message)
    requires m.Connect? && FitsConnect(m)
    ensures RemainingLength(m) < 0x1000_0000 && FirstByte(m) == 0x10
  {
  }

  lemma ConnectBodyDecodes(m: Message)
    requires m.Connect? && NulFreeMessage(m) && FitsConnect(m)
    ensures DecodeConnect(VariableHeader(m) + PayloadBytes(m)) == Some(SessionOf(m))
  {
    var flags, payload := ConnectFlags(m), PayloadBytes(m);
    PayloadDecodes(m);
    ConnectFlagBits(m);
    assert VariableHeader(m) == Text(MQTT_NAME) + [4, flags] + U16(m.keepalive);
    hide PayloadBytes, ConnectFlags, DecodeConnectPayload, VariableHeader;
    hide Bit;
    HeaderDecodes(flags, m.keepalive, payload);
  }

  lemma HeaderDecodes(flags: byte, keepalive: uint16, payload: bytes)
    requires !Bit(flags, 1)
    ensures DecodeConnect(Text(MQTT_NAME) + [4, flags] + U16(keepalive) + payload)
         == DecodeConnectPayload(flags, keepalive, payload)
  {
    hide Text, AsText, Bit, DecodeConnectPayload, U16;
    var tail := [4, flags] + U16(keepalive) + payload;
    NameBack(tail);
    KeepaliveBack(flags, keepalive, payload);
    assert Text(MQTT_NAME) + [4, flags] + U16(keepalive) + payload == Text(MQTT_NAME) + tail;
    assert tail[4..] == payload;
  }

  lemma NameBack(tail: bytes)
    ensures AsText(Text(MQTT_NAME) + tail) == Some((MQTT_NAME, tail))
  {
    hide AsText, Text;
    TextBack(MQTT_NAME, tail);
  }

  lemma KeepaliveBack(flags: byte, keepalive: uint16, payload: bytes)
    ensures var tail := [4, flags] + U16(keepalive) + payload;
            |tail| >= 4 && tail[0] == 4 && tail[1] == flags && FromU16(tail[2], tail[3]) == keepalive
  {
  }

  // ---- SUBSCRIBE -------------------------------------------------------------------------------------------------

  datatype Subscription = Subscription(topic: bytes, qos: byte)

  function Entry(t: Subscription): bytes
  {
    Text(t.topic) + [t.qos]
  }

  function Entries(list: seq<Subscription>): bytes
  {
    if list == [] then [] else Entry(list[0]) + Entries(list[1..])
  }

  // Section 3.8.3: topic filters, each followed by its requested QoS.
  function DecodeEntries(s: bytes): Option<seq<Subscription>>
    decreases |s|
  {
    if s == [] then Some([])
    else match AsText(s)
         case None => None
         case Some(t) =>
           if t.1 == [] || |t.1| > |s| then None
           else match DecodeEntries(t.1[1..])
                case None => None
                case Some(rest) => Some([Subscription(t.0, t.1[0])] + rest)
  }

  lemma {:induction false} EntriesRoundTrip(list: seq<Subscription>)
    requires forall t :: t in list ==> NulFree(t.topic) && |t.topic| < 0x1_0000
    ensures DecodeEntries(Entries(list)) == Some(list)
  {
    if list != [] {
      var t, rest := list[0], Entries(list[1..]);
      EntriesRoundTrip(list[1..]);
      Regrouped(Text(t.topic), [t.qos], rest);
      TextBack(t.topic, [t.qos] + rest);
      assert ([t.qos] + rest)[1..] == rest;
      assert |Entries(list)| > |rest|;
      hide AsText, Text;
      assert [list[0]] + list[1..] == list;
    }
  }

  // Section 3.8: the packet id and the list, of a packet whose first byte is that of a SUBSCRIBE.
  function DecodeSubscribe(packet: bytes): Option<(uint16, seq<Subscription>)>
  {
    match DecodePacket(0x82, packet)
    case None => None
    case Some(body) =>
      if |body| < 2 then None
      else match DecodeEntries(body[2..])
           case None => None
           case Some(list) => Some((body[0] as int * 256 + body[1] as int, list))
  }

  // What a broker decodes from a SUBSCRIBE is its id and all subscriptions of the list, in order.
  lemma SubscribeRoundTrip(id: uint16, list: seq<Subscription>)
    requires forall t :: t in list ==> NulFree(t.topic) && |t.topic| < 0x1_0000
    requires |Entries(list)| < 0x1000_0000 - 2
    ensures DecodeSubscribe(Encoded(Subscribe(id, Entries(list)))) == Some((id, list))
  {
    hide DecodePacket, DecodeEntries, Entries, Encoded, NulFree;
    var m := Subscribe(id, Entries(list));
    EntriesRoundTrip(list);
    PacketDecodes(m, 0x82);
    assert (U16(id) + Entries(list))[2..] == Entries(list);
  }

  lemma {:induction false} EntriesOfMore(list: seq<Subscription>, t: Subscription)
    ensures Entries(list + [t]) == Entries(list) + Entry(t)
  {
    hide Entry;
    if list == [] {
      assert list + [t] == [t] && [t][1..] == [];
      assert Entries([t]) == Entry(t) + [];
    } else {
      assert (list + [t])[1..] == list[1..] + [t];
      EntriesOfMore(list[1..], t);
      Regrouped(Entry(list[0]), Entries(list[1..]), Entry(t));
    }
  }

  // The Subscribe class: a heap buffer that is reallocated for each topic and filled in place.
  class Subscriptions {
    var buffer: array<byte>
    var buflen: nat
    ghost var list: seq<Subscription>

    ghost predicate Valid()
      reads this, buffer
    {
      buflen <= buffer.Length && buffer[..buflen] == Entries(list)
    }

    constructor ()
      ensures Valid() && fresh(buffer) && list == []
    {
      buffer := new byte[0];
      buflen, list := 0, [];
    }

    method AddTopic(topic: bytes, qos: byte)
      requires Valid()
      modifies this
      ensures Valid() && fresh(buffer) && list == old(list) + [Subscription(topic, qos)]
    {
      TextLength(topic);
      EntriesOfMore(list, Subscription(topic, qos));
      hide Text, Entries;
      ghost var was := buffer[..buflen];
      var grown := new byte[buflen + 2 + |topic| + 1];
      forall i | 0 <= i < buflen {
        grown[i] := buffer[i];
      }
      assert grown[..buflen] == was;
      ghost var before := grown[..];
      var pos := WriteText(grown, buflen, topic);
      ghost var between := grown[..];
      pos := WriteByte(grown, pos, qos);
      WroteBoth(before, between, grown[..], buflen, Text(topic), [qos]);
      WroteAfter(before, grown[..], buflen, Text(topic) + [qos]);
      hide Wrote;
      assert grown[..][..pos] == grown[..pos];
      buffer, buflen := grown, pos;
      list := list + [Subscription(topic, qos)];
    }
  }

  lemma WroteAfter(before: bytes, after: bytes, pos: nat, what: bytes)
    requires Wrote(before, after, pos, what)
    ensures pos + |what| <= |after| && after[..pos + |what|] == before[..pos] + what
  {
  }
}
