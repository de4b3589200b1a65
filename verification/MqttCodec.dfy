/** The packets of MQTT.cpp and MQTT.h: how they are measured, written and read back. Bytes are numbers below 256, and
    the bit operations of the source on them are written out as arithmetic on their binary digits, except for the masks
    of the flag setters in MqttFlags.dfy. */
module MqttCodec {
  import opened Basics

  type byte = b: int | 0 <= b < 256
  type bytes = seq<byte>
  type uint16 = n: int | 0 <= n < 0x1_0000

  // ---- numbers and strings ---------------------------------------------------------------------------------------

  function U16(n: uint16): (s: bytes)
    ensures |s| == 2
  {
    [n / 256, n % 256]
  }

  function FromU16(hi: byte, lo: byte): (n: uint16)
    ensures U16(n) == [hi, lo]
  {
    hi * 256 + lo
  }

  // The part of a String that a C string loop sees.
  function CString(s: bytes): (c: bytes)
    ensures |c| <= |s| && c == s[..|c|] && 0 !in c
    ensures |c| < |s| ==> s[|c|] == 0
  {
    if s == [] || s[0] == 0 then [] else [s[0]] + CString(s[1..])
  }

  predicate NulFree(s: bytes)
  {
    0 !in s
  }

  lemma CStringIsWholeExactlyWithoutNul(s: bytes)
    ensures CString(s) == s <==> NulFree(s)
  {
    var c := CString(s);
    if c != s {
      assert s[|c|] == 0;
    }
  }

  // A string or block on the wire, with its 16-bit length first (section 1.5.3 of MQTT Version 3.1.1).
  function Prefixed(s: bytes): (p: bytes)
    ensures |p| == 2 + |s|
  {
    U16(|s| % 0x1_0000) + s
  }

  // ---- the remaining length --------------------------------------------------------------------------------------

  // Section 2.2.3 of MQTT Version 3.1.1: seven bits a byte, low bits first, the top bit set on all bytes but the last.
  function VarInt(n: nat): (s: bytes)
    ensures |s| >= 1
  {
    if n < 128 then [n] else [n % 128 + 128] + VarInt(n / 128)
  }

  function FixedHeaderLength(rlength: nat): nat
  {
    if rlength < 128 then 2
    else if rlength < 16384 then 3
    else if rlength < 2097152 then 4
    else 5
  }

  lemma VarIntLength(n: nat)
    ensures |VarInt(n)| + 1 == FixedHeaderLength(n) <==> n < 0x1000_0000
  {
    VarIntLengths(n);
  }

  lemma VarIntLengths(n: nat)
    ensures n < 128 ==> |VarInt(n)| == 1
    ensures 128 <= n < 16384 ==> |VarInt(n)| == 2
    ensures 16384 <= n < 2097152 ==> |VarInt(n)| == 3
    ensures 2097152 <= n < 0x1000_0000 ==> |VarInt(n)| == 4
    ensures 0x1000_0000 <= n ==> |VarInt(n)| >= 5
  {
    if n >= 128 {
      VarIntLengths(n / 128);
    }
  }

  // What the reader of lines 187 to 198 makes of a stream: the sum of the groups read, each shifted by 7 bits more,
  // and the bytes left over; None while the stream ends before the number does.
  function ReadVarInt(s: bytes): Option<(nat, bytes)>
  {
    if s == [] then None
    else if s[0] < 128 then Some((s[0], s[1..]))
    else match ReadVarInt(s[1..])
         case None => None
         case Some(r) => Some((s[0] - 128 + 128 * r.0, r.1))
  }

  lemma {:induction false} VarIntRoundTrip(n: nat, rest: bytes)
    ensures ReadVarInt(VarInt(n) + rest) == Some((n, rest))
  {
    var s := VarInt(n) + rest;
    if n < 128 {
      assert s[1..] == rest;
    } else {
      VarIntRoundTrip(n / 128, rest);
      assert s[1..] == VarInt(n / 128) + rest;
    }
  }

  // ---- messages --------------------------------------------------------------------------------------------------

  // PublishFrom is a Publish whose payload a callback writes to the network itself. PublishStream and SubAckStream are
  // large messages whose tail is left unread in the stream.
  datatype Message =
    | Connect(cleanSession: bool, willQos: byte, willRetain: bool, clientId: bytes, willTopic: bytes, willMessage: bytes,
              username: bytes, password: bytes, keepalive: uint16)
    | ConnAck(sessionPresent: bool, rc: byte)
    | Publish(flags: byte, packetId: uint16, topic: bytes, payload: bytes)
    | PublishFrom(flags: byte, packetId: uint16, topic: bytes, length: nat)
    | PublishStream(flags: byte, packetId: uint16, topic: bytes, length: nat)
    | PubAck(packetId: uint16)
    | PubRec(packetId: uint16)
    | PubRel(packetId: uint16)
    | PubComp(packetId: uint16)
    | Subscribe(packetId: uint16, buffer: bytes)
    | SubAck(packetId: uint16, rcs: bytes)
    | SubAckStream(packetId: uint16, numRcs: nat)
    | Unsubscribe(packetId: uint16, buffer: bytes)
    | UnsubAck(packetId: uint16)
    | PingReq
    | PingResp
    | Disconnect

  function TypeCode(m: Message): (code: byte)
    ensures code < 16
  {
    match m
    case Connect(_, _, _, _, _, _, _, _, _) => 1
    case ConnAck(_, _) => 2
    case Publish(_, _, _, _) => 3
    case PublishFrom(_, _, _, _) => 3
    case PublishStream(_, _, _, _) => 3
    case PubAck(_) => 4
    case PubRec(_) => 5
    case PubRel(_) => 6
    case PubComp(_) => 7
    case Subscribe(_, _) => 8
    case SubAck(_, _) => 9
    case SubAckStream(_, _) => 9
    case Unsubscribe(_, _) => 10
    case UnsubAck(_) => 11
    case PingReq => 12
    case PingResp => 13
    case Disconnect => 14
  }

  // The getters of Publish on its flags byte: retain is bit 0, QoS bits 1 and 2, dup bit 3.
  function Qos(flags: byte): byte { flags / 2 % 4 }
  function Retain(flags: byte): bool { flags % 2 == 1 }
  function Dup(flags: byte): bool { flags / 8 % 2 == 1 }

  function Flags(retain: nat, qos: nat, dup: nat, rest: nat): (flags: byte)
    requires retain < 2 && qos < 4 && dup < 2 && rest < 16
    ensures Retain(flags) == (retain == 1) && Qos(flags) == qos && Dup(flags) == (dup == 1)
    ensures flags % 2 == retain && flags / 8 % 2 == dup && flags / 16 == rest
  {
    16 * rest + 8 * dup + 2 * qos + retain
  }

  // ---- the length functions --------------------------------------------------------------------------------------

  predicate HasWill(m: Message) requires m.Connect? { m.willTopic != [] }
  predicate HasUser(m: Message) requires m.Connect? { m.username != [] }
  predicate HasPassword(m: Message) requires m.Connect? { m.username != [] && m.password != [] }

  function VariableHeaderLength(m: Message): nat
  {
    match m
    case Connect(_, _, _, _, _, _, _, _, _) => 10
    case Publish(flags, _, topic, _) => 2 + |topic| + if Qos(flags) != 0 then 2 else 0
    case PublishFrom(flags, _, topic, _) => 2 + |topic| + if Qos(flags) != 0 then 2 else 0
    case PubRec(_) => 2
    case PubRel(_) => 2
    case PubComp(_) => 2
    case Subscribe(_, _) => 2
    case Unsubscribe(_, _) => 2
    case _ => 0
  }

  function PayloadLength(m: Message): nat
  {
    match m
    case Connect(_, _, _, clientId, willTopic, willMessage, username, password, _) =>
      2 + |clientId|
      + (if HasWill(m) then 2 + |willTopic| + 2 + |willMessage| else 0)
      + (if HasUser(m) then 2 + |username| + (if HasPassword(m) then 2 + |password| else 0) else 0)
    case Publish(_, _, _, payload) => |payload|
    case PublishFrom(_, _, _, length) => length
    case Subscribe(_, buffer) => |buffer|
    case Unsubscribe(_, buffer) => |buffer|
    case _ => 0
  }

  function RemainingLength(m: Message): nat
  {
    VariableHeaderLength(m) + PayloadLength(m)
  }

  // What send allocates. A callback's payload is not part of it.
  function PacketLength(m: Message): nat
  {
    FixedHeaderLength(RemainingLength(m)) + if m.PublishFrom? then VariableHeaderLength(m) else RemainingLength(m)
  }

  // ---- the bytes on the wire -------------------------------------------------------------------------------------

  // A String as write puts it down: up to its first NUL.
  function Text(s: bytes): bytes
  {
    Prefixed(CString(s))
  }

  function ConnectFlags(m: Message): byte
    requires m.Connect?
  {
    (if m.cleanSession then 2 else 0)
    + (if HasWill(m) then 4 + 8 * (if m.willQos > 2 then 2 else m.willQos) + (if m.willRetain then 32 else 0) else 0)
    + (if HasUser(m) then 128 + (if HasPassword(m) then 64 else 0) else 0)
  }

  const MQTT_NAME: bytes := [77, 81, 84, 84]

  // The low four bits of the first byte.
  function HeaderFlags(m: Message): (low: nat)
    ensures low < 16
  {
    match m
    case Publish(flags, _, _, _) => flags % 16
    case PublishFrom(flags, _, _, _) => flags % 16
    case PubRel(_) => 2
    case Subscribe(_, _) => 2
    case Unsubscribe(_, _) => 2
    case _ => 0
  }

  function FirstByte(m: Message): byte
  {
    TypeCode(m) * 16 + HeaderFlags(m)
  }

  function FixedHeader(m: Message): bytes
  {
    [FirstByte(m)] + VarInt(RemainingLength(m))
  }

  function VariableHeader(m: Message): bytes
  {
    match m
    case Connect(_, _, _, _, _, _, _, _, keepalive) => Text(MQTT_NAME) + [4, ConnectFlags(m)] + U16(keepalive)
    case Publish(flags, packetId, topic, _) => Text(topic) + if Qos(flags) != 0 then U16(packetId) else []
    case PublishFrom(flags, packetId, topic, _) => Text(topic) + if Qos(flags) != 0 then U16(packetId) else []
    case PubRec(packetId) => U16(packetId)
    case PubRel(packetId) => U16(packetId)
    case PubComp(packetId) => U16(packetId)
    case Subscribe(packetId, _) => U16(packetId)
    case Unsubscribe(packetId, _) => U16(packetId)
    case _ => []
  }

  function PayloadBytes(m: Message): bytes
  {
    match m
    case Connect(_, _, _, clientId, willTopic, willMessage, username, password, _) =>
      Text(clientId)
      + (if HasWill(m) then Text(willTopic) + Prefixed(willMessage) else [])
      + (if HasUser(m) then Text(username) + (if HasPassword(m) then Text(password) else []) else [])
    case Publish(_, _, _, payload) => payload
    case Subscribe(_, buffer) => buffer
    case Unsubscribe(_, buffer) => buffer
    case _ => []
  }

  function Encoded(m: Message): bytes
  {
    FixedHeader(m) + VariableHeader(m) + PayloadBytes(m)
  }

  // No string of the message that goes onto the wire has a NUL in it.
  predicate NulFreeMessage(m: Message)
  {
    match m
    case Connect(_, _, _, clientId, willTopic, _, username, password, _) =>
      && NulFree(clientId) && NulFree(willTopic) && NulFree(username) && (HasPassword(m) ==> NulFree(password))
    case Publish(_, _, topic, _) => NulFree(topic)
    case PublishFrom(_, _, topic, _) => NulFree(topic)
    case _ => true
  }

  // The length functions measure what the writers write, byte for byte, exactly for these messages; otherwise the
  // writers stop short.
  lemma LengthsAgreeExactlyWithoutNul(m: Message)
    requires RemainingLength(m) < 0x1000_0000
    ensures |Encoded(m)| <= PacketLength(m)
    ensures |Encoded(m)| == PacketLength(m) <==> NulFreeMessage(m)
  {
    VarIntLength(RemainingLength(m));
    hide VarInt, FixedHeaderLength;
    match m
    case Connect(_, _, _, clientId, willTopic, _, username, password, _) =>
      TextLength(MQTT_NAME);
      TextLength(clientId);
      TextLength(willTopic);
      TextLength(username);
      TextLength(password);
      hide Text;
    case Publish(_, _, topic, _) =>
      TextLength(topic);
    case PublishFrom(_, _, topic, _) =>
      TextLength(topic);
    case _ =>
  }

  lemma TextLength(s: bytes)
    ensures |Text(s)| <= 2 + |s|
    ensures |Text(s)| == 2 + |s| <==> NulFree(s)
  {
    CStringIsWholeExactlyWithoutNul(s);
  }
}
