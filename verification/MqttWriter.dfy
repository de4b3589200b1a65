/** The writers of MQTT.cpp: they fill a buffer in place and advance a position. */
module MqttWriter {
  import opened MqttCodec
  import Mqtt311

  // after is before with the bytes of what laid over it from pos on.
  ghost predicate Wrote(before: bytes, after: bytes, pos: nat, what: bytes)
  {
    && pos + |what| <= |before|
    && after == before[..pos] + what + before[pos + |what|..]
  }

  lemma WroteBoth(a: bytes, b: bytes, c: bytes, pos: nat, x: bytes, y: bytes)
    requires Wrote(a, b, pos, x) && Wrote(b, c, pos + |x|, y)
    ensures Wrote(a, c, pos, x + y)
  {
    assert b[pos + |x| + |y|..] == a[pos + |x| + |y|..];
    assert b[..pos + |x|] == a[..pos] + x;
  }

  lemma WroteNothing(a: bytes, pos: nat)
    requires pos <= |a|
    ensures Wrote(a, a, pos, [])
  {
  }

  lemma WroteFromStart(a: bytes, b: bytes, x: bytes)
    requires Wrote(a, b, 0, x)
    ensures |b| == |a| && x <= b
    ensures |x| == |a| ==> b == x
  {
  }

  method WriteByte(buf: array<byte>, pos: nat, data: byte) returns (next: nat)
    requires pos < buf.Length
    modifies buf
    ensures next == pos + 1 && Wrote(old(buf[..]), buf[..], pos, [data])
  {
    buf[pos] := data;
    next := pos + 1;
  }

  // One byte more behind what has been written from start on.
  method AppendByte(buf: array<byte>, pos: nat, data: byte, ghost before: bytes, ghost start: nat, ghost done: bytes)
    returns (next: nat)
    requires Wrote(before, buf[..], start, done) && pos == start + |done| < buf.Length
    modifies buf
    ensures next == pos + 1 && Wrote(before, buf[..], start, done + [data])
  {
    ghost var b := buf[..];
    next := WriteByte(buf, pos, data);
    WroteBoth(before, b, buf[..], start, done, [data]);
  }

  method WriteU16(buf: array<byte>, pos: nat, data: uint16) returns (next: nat)
    requires pos + 2 <= buf.Length
    modifies buf
    ensures next == pos + 2 && Wrote(old(buf[..]), buf[..], pos, U16(data))
  {
    buf[pos] := data / 256;
    buf[pos + 1] := data % 256;
    next := pos + 2;
  }

  method WriteBarePayload(buf: array<byte>, pos: nat, data: bytes) returns (next: nat)
    requires pos + |data| <= buf.Length
    modifies buf
    ensures next == pos + |data| && Wrote(old(buf[..]), buf[..], pos, data)
  {
    forall i | 0 <= i < |data| {
      buf[pos + i] := data[i];
    }
    next := pos + |data|;
  }

  method WriteBlock(buf: array<byte>, pos: nat, data: bytes) returns (next: nat)
    requires |data| < 0x1_0000 && pos + 2 + |data| <= buf.Length
    modifies buf
    ensures next == pos + 2 + |data| && Wrote(old(buf[..]), buf[..], pos, Prefixed(data))
  {
    ghost var a := buf[..];
    next := WriteU16(buf, pos, |data|);
    ghost var b := buf[..];
    next := WriteBarePayload(buf, next, data);
    WroteBoth(a, b, buf[..], pos, U16(|data|), data);
  }

  // The C string loop: the length goes into the two bytes skipped at first, counted in 16 bits.
  method WriteText(buf: array<byte>, pos: nat, str: bytes) returns (next: nat)
    requires pos + |Text(str)| <= buf.Length
    modifies buf
    ensures next == pos + |Text(str)| && Wrote(old(buf[..]), buf[..], pos, Text(str))
  {
    ghost var a, text := buf[..], CString(str);
    WroteNothing(a, pos + 2);
    hide Wrote, CString;
    var lengthPos, bufpos, count: uint16, c := pos, pos + 2, 0, 0;
    while c < |str| && str[c] != 0
      invariant c <= |text| && bufpos == pos + 2 + c && count == c % 0x1_0000
      invariant Wrote(a, buf[..], pos + 2, text[..c])
      decreases |str| - c
    {
      CountOneMore(c);
      bufpos := AppendByte(buf, bufpos, str[c], a, pos + 2, text[..c]);
      TakeOneMore(text, c);
      c := c + 1;
      count := (count + 1) % 0x1_0000;
    }
    assert text[..c] == text;
    ghost var b := buf[..];
    var _ := WriteU16(buf, lengthPos, count);
    WroteBefore(a, b, buf[..], pos, U16(count), text);
    next := bufpos;
  }

  lemma WroteBefore(a: bytes, b: bytes, c: bytes, pos: nat, x: bytes, y: bytes)
    requires Wrote(a, b, pos + |x|, y) && Wrote(b, c, pos, x)
    ensures Wrote(a, c, pos, x + y)
  {
    assert b[..pos] == a[..pos];
    assert b[pos + |x|..] == y + a[pos + |x| + |y|..];
  }

  lemma TakeOneMore(s: bytes, c: nat)
    requires c < |s|
    ensures s[..c + 1] == s[..c] + [s[c]]
  {
  }

  lemma CountOneMore(c: nat)
    ensures (c % 0x1_0000 + 1) % 0x1_0000 == (c + 1) % 0x1_0000
  {
  }

  method WriteFixedHeader(m: Message, buf: array<byte>, pos: nat, rlength: nat) returns (next: nat)
    requires rlength == RemainingLength(m) && pos + |FixedHeader(m)| <= buf.Length
    modifies buf
    ensures next == pos + |FixedHeader(m)| && Wrote(old(buf[..]), buf[..], pos, FixedHeader(m))
    ensures buf[pos] == Mqtt311.FirstOf(m)
  {
    ghost var a := buf[..];
    buf[pos] := TypeCode(m) * 16;
    match m {
      case Publish(flags, _, _, _) => buf[pos] := buf[pos] + flags % 16;
      case PublishFrom(flags, _, _, _) => buf[pos] := buf[pos] + flags % 16;
      case PubRel(_) => buf[pos] := buf[pos] + 2;
      case Subscribe(_, _) => buf[pos] := buf[pos] + 2;
      case Unsubscribe(_, _) => buf[pos] := buf[pos] + 2;
      case _ =>
    }
    ghost var b := buf[..];
    assert Wrote(a, b, pos, [FirstByte(m)]);
    next := WriteVarInt(buf, pos + 1, rlength);
    Mqtt311.FirstByteIs(m);
    WroteBoth(a, b, buf[..], pos, [FirstByte(m)], VarInt(rlength));
  }

  method WriteVarInt(buf: array<byte>, pos: nat, rlength: nat) returns (next: nat)
    requires pos + |VarInt(rlength)| <= buf.Length
    modifies buf
    ensures next == pos + |VarInt(rlength)| && Wrote(old(buf[..]), buf[..], pos, VarInt(rlength))
  {
    ghost var a, done: bytes := buf[..], [];
    WroteNothing(a, pos);
    hide Wrote, VarInt;
    var rest := rlength;
    next := pos;
    while true
      invariant next == pos + |done| && VarInt(rlength) == done + VarInt(rest)
      invariant Wrote(a, buf[..], pos, done)
      decreases rest
    {
      var digit: byte := rest % 128;
      VarIntStep(done, rest);
      rest := rest / 128;
      if rest != 0 {
        digit := digit + 128;
      }
      next := AppendByte(buf, next, digit, a, pos, done);
      done := done + [digit];
      if rest == 0 {
        break;
      }
    }
  }

  lemma VarIntStep(done: bytes, rest: nat)
    ensures rest < 128 ==> done + VarInt(rest) == done + [rest]
    ensures rest >= 128 ==> done + VarInt(rest) == done + [rest % 128 + 128] + VarInt(rest / 128)
  {
    if rest >= 128 {
      var digit, more := rest % 128 + 128, VarInt(rest / 128);
      assert VarInt(rest) == [digit] + more;
      hide VarInt;
      assert done + ([digit] + more) == done + [digit] + more;
    }
  }

  method WriteVariableHeader(m: Message, buf: array<byte>, pos: nat) returns (next: nat)
    requires pos + |VariableHeader(m)| <= buf.Length
    modifies buf
    ensures next == pos + |VariableHeader(m)| && Wrote(old(buf[..]), buf[..], pos, VariableHeader(m))
  {
    match m {
      case Connect(_, _, _, _, _, _, _, _, keepalive) =>
        next := WriteConnectHeader(m, buf, pos);
      case Publish(flags, packetId, topic, _) =>
        next := WriteTopicAndId(buf, pos, topic, flags, packetId);
      case PublishFrom(flags, packetId, topic, _) =>
        next := WriteTopicAndId(buf, pos, topic, flags, packetId);
      case PubRec(packetId) => next := WriteU16(buf, pos, packetId);
      case PubRel(packetId) => next := WriteU16(buf, pos, packetId);
      case PubComp(packetId) => next := WriteU16(buf, pos, packetId);
      case Subscribe(packetId, _) => next := WriteU16(buf, pos, packetId);
      case Unsubscribe(packetId, _) => next := WriteU16(buf, pos, packetId);
      case _ => next := pos;
    }
  }

  method WriteConnectHeader(m: Message, buf: array<byte>, pos: nat) returns (next: nat)
    requires m.Connect? && pos + |VariableHeader(m)| <= buf.Length
    modifies buf
    ensures next == pos + |VariableHeader(m)| && Wrote(old(buf[..]), buf[..], pos, VariableHeader(m))
  {
    assert VariableHeader(m) == Text(MQTT_NAME) + [4] + [ConnectFlags(m)] + U16(m.keepalive);
    hide Text, ConnectFlags, VariableHeader, U16;
    ghost var a := buf[..];
    next := WriteText(buf, pos, MQTT_NAME);
    ghost var b := buf[..];
    next := WriteByte(buf, next, 4);
    ghost var c := buf[..];
    WroteBoth(a, b, c, pos, Text(MQTT_NAME), [4]);
    next := WriteConnectFlags(m, buf, next);
    ghost var d := buf[..];
    WroteBoth(a, c, d, pos, Text(MQTT_NAME) + [4], [ConnectFlags(m)]);
    next := WriteU16(buf, next, m.keepalive);
    WroteBoth(a, d, buf[..], pos, Text(MQTT_NAME) + [4] + [ConnectFlags(m)], U16(m.keepalive));
  }

  method WriteTopicAndId(buf: array<byte>, pos: nat, topic: bytes, flags: byte, packetId: uint16) returns (next: nat)
    requires pos + |Text(topic)| + (if Qos(flags) != 0 then 2 else 0) <= buf.Length
    modifies buf
    ensures var what := Text(topic) + if Qos(flags) != 0 then U16(packetId) else [];
            next == pos + |what| && Wrote(old(buf[..]), buf[..], pos, what)
  {
    ghost var a := buf[..];
    next := WriteText(buf, pos, topic);
    if Qos(flags) != 0 {
      ghost var b := buf[..];
      next := WriteU16(buf, next, packetId);
      WroteBoth(a, b, buf[..], pos, Text(topic), U16(packetId));
    }
  }

  // Lines 329 to 348: the flags, put together bit by bit.
  method WriteConnectFlags(m: Message, buf: array<byte>, pos: nat) returns (next: nat)
    requires m.Connect? && pos < buf.Length
    modifies buf
    ensures next == pos + 1 && Wrote(old(buf[..]), buf[..], pos, [ConnectFlags(m)])
  {
    var flags := 0;
    if m.cleanSession {
      flags := flags + 2;
    }
    if m.willTopic != [] {
      flags := flags + 4;
      if m.willQos > 2 {
        flags := flags + 2 * 8;
      } else {
        flags := flags + m.willQos * 8;
      }
      flags := flags + (if m.willRetain then 1 else 0) * 32;
    }
    if m.username != [] {
      flags := flags + 128;
      if m.password != [] {
        flags := flags + 64;
      }
    }
    next := WriteByte(buf, pos, flags);
  }

  method WritePayload(m: Message, buf: array<byte>, pos: nat) returns (next: nat)
    requires pos + |PayloadBytes(m)| <= buf.Length
    requires m.Connect? ==> |m.willMessage| < 0x1_0000
    modifies buf
    ensures next == pos + |PayloadBytes(m)| && Wrote(old(buf[..]), buf[..], pos, PayloadBytes(m))
  {
    match m {
      case Connect(_, _, _, clientId, willTopic, willMessage, username, password, _) =>
        next := WriteConnectPayload(m, buf, pos);
      case Publish(_, _, _, payload) => next := WriteBarePayload(buf, pos, payload);
      case Subscribe(_, buffer) => next := WriteBarePayload(buf, pos, buffer);
      case Unsubscribe(_, buffer) => next := WriteBarePayload(buf, pos, buffer);
      case _ => next := pos;
    }
  }

  method WriteConnectPayload(m: Message, buf: array<byte>, pos: nat) returns (next: nat)
    requires m.Connect? && |m.willMessage| < 0x1_0000
    requires pos + |PayloadBytes(m)| <= buf.Length
    modifies buf
    ensures next == pos + |PayloadBytes(m)| && Wrote(old(buf[..]), buf[..], pos, PayloadBytes(m))
  {
    ConnectPayloadParts(m);
    hide *;
    ghost var a := buf[..];
    next := WriteText(buf, pos, m.clientId);
    ghost var b := buf[..];
    next := WriteWill(m, buf, next);
    ghost var c := buf[..];
    WroteBoth(a, b, c, pos, Text(m.clientId), WillBytes(m));
    next := WriteCredentials(m, buf, next);
    WroteBoth(a, c, buf[..], pos, Text(m.clientId) + WillBytes(m), CredentialBytes(m));
  }

  ghost function WillBytes(m: Message): bytes
    requires m.Connect?
  {
    if HasWill(m) then Text(m.willTopic) + Prefixed(m.willMessage) else []
  }

  ghost function CredentialBytes(m: Message): bytes
    requires m.Connect?
  {
    if HasUser(m) then Text(m.username) + (if HasPassword(m) then Text(m.password) else []) else []
  }

  lemma ConnectPayloadParts(m: Message)
    requires m.Connect?
    ensures PayloadBytes(m) == Text(m.clientId) + WillBytes(m) + CredentialBytes(m)
  {
    hide Text, Prefixed;
  }

  method WriteWill(m: Message, buf: array<byte>, pos: nat) returns (next: nat)
    requires m.Connect? && |m.willMessage| < 0x1_0000 && pos + |WillBytes(m)| <= buf.Length
    modifies buf
    ensures next == pos + |WillBytes(m)| && Wrote(old(buf[..]), buf[..], pos, WillBytes(m))
  {
    hide Text, Prefixed;
    ghost var a := buf[..];
    next := pos;
    if m.willTopic != [] {
      next := WriteText(buf, next, m.willTopic);
      ghost var b := buf[..];
      next := WriteBlock(buf, next, m.willMessage);
      WroteBoth(a, b, buf[..], pos, Text(m.willTopic), Prefixed(m.willMessage));
    }
  }

  method WriteCredentials(m: Message, buf: array<byte>, pos: nat) returns (next: nat)
    requires m.Connect? && pos + |CredentialBytes(m)| <= buf.Length
    modifies buf
    ensures next == pos + |CredentialBytes(m)| && Wrote(old(buf[..]), buf[..], pos, CredentialBytes(m))
  {
    hide Text;
    ghost var a := buf[..];
    next := pos;
    if m.username != [] {
      next := WriteText(buf, next, m.username);
      if m.password != [] {
        ghost var b := buf[..];
        next := WriteText(buf, next, m.password);
        WroteBoth(a, b, buf[..], pos, Text(m.username), Text(m.password));
      }
    }
  }

  // Message::send up to the handing over to the network: the packet as allocated, and how far it has been filled.
  method BuildPacket(m: Message) returns (packet: array<byte>, pos: nat)
    requires RemainingLength(m) < 0x1000_0000
    requires m.Connect? ==> |m.willMessage| < 0x1_0000
    ensures fresh(packet) && packet.Length == PacketLength(m)
    ensures pos == |Encoded(m)| && Encoded(m) <= packet[..]
    ensures NulFreeMessage(m) ==> packet[..] == Encoded(m) && Mqtt311.Prescribed(m, packet[..])
    ensures !NulFreeMessage(m) ==> pos < packet.Length
  {
    hide *;
    EncodedIs(m);
    packet := new byte[PacketLength(m)];
    ghost var a := packet[..];
    pos := WriteFixedHeader(m, packet, 0, RemainingLength(m));
    ghost var b := packet[..];
    pos := WriteVariableHeader(m, packet, pos);
    ghost var c := packet[..];
    WroteBoth(a, b, c, 0, FixedHeader(m), VariableHeader(m));
    pos := WritePayload(m, packet, pos);
    WroteBoth(a, c, packet[..], 0, FixedHeader(m) + VariableHeader(m), PayloadBytes(m));
    WroteFromStart(a, packet[..], Encoded(m));
  }

  lemma EncodedIs(m: Message)
    requires RemainingLength(m) < 0x1000_0000
    ensures Encoded(m) == FixedHeader(m) + VariableHeader(m) + PayloadBytes(m)
    ensures |Encoded(m)| <= PacketLength(m) && (|Encoded(m)| == PacketLength(m) <==> NulFreeMessage(m))
    ensures NulFreeMessage(m) ==> Mqtt311.Prescribed(m, Encoded(m))
  {
    hide FixedHeader, VariableHeader, PayloadBytes, PacketLength, RemainingLength, NulFreeMessage, Mqtt311.Prescribed;
    LengthsAgreeExactlyWithoutNul(m);
    if NulFreeMessage(m) {
      Mqtt311.SentAsPrescribed(m);
    }
  }
}
