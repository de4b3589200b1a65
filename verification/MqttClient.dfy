/** PubSubClient.cpp: sending with retries, waiting for replies, and handling whatever arrives meanwhile, which sends and
    waits in turn. */
module MqttClient {
  import opened Basics
  import opened MqttCodec
  import opened MqttTrace
  import Clock

  // Blocked: readPacket spins for ever on a connection that delivers nothing more.
  datatype Outcome = Done(ok: bool) | Blocked

  // set_packet_id.
  function WithId(m: Message, id: uint16): Message
    requires TakesId(m)
  {
    match m
    case Publish(flags, _, topic, payload) => Publish(flags, id, topic, payload)
    case PublishFrom(flags, _, topic, length) => PublishFrom(flags, id, topic, length)
    case Subscribe(_, buffer) => Subscribe(id, buffer)
    case Unsubscribe(_, buffer) => Unsubscribe(id, buffer)
  }

  lemma OnlyTheIdChanges(m: Message, id: uint16)
    requires TakesId(m)
    ensures m.Publish? ==> WithId(m, id) == Publish(m.flags, id, m.topic, m.payload)
    ensures m.PublishFrom? ==> WithId(m, id) == PublishFrom(m.flags, id, m.topic, m.length)
    ensures m.Subscribe? ==> WithId(m, id) == Subscribe(id, m.buffer)
    ensures m.Unsubscribe? ==> WithId(m, id) == Unsubscribe(id, m.buffer)
  {
  }

  predicate TakesId(m: Message)
  {
    m.Publish? || m.PublishFrom? || m.Subscribe? || m.Unsubscribe?
  }

  // The type of the reply a message asks for; 0 for none. QoS 3 has no case of its own in the source.
  function ResponseType(m: Message): byte
    requires m.Publish? || m.PublishFrom? ==> Qos(m.flags) < 3
  {
    match m
    case Connect(_, _, _, _, _, _, _, _, _) => 2
    case Publish(flags, _, _, _) => if Qos(flags) == 0 then 0 else if Qos(flags) == 1 then 4 else 5
    case PublishFrom(flags, _, _, _) => if Qos(flags) == 0 then 0 else if Qos(flags) == 1 then 4 else 5
    case PubRec(_) => 6
    case PubRel(_) => 7
    case Subscribe(_, _) => 9
    case Unsubscribe(_, _) => 11
    case PingReq => 13
    case _ => 0
  }

  // ---- packet ids ------------------------------------------------------------------------------------------------

  // _next_packet_id on a 16-bit counter.
  function NextId(id: uint16): uint16
  {
    if id + 1 == 0x1_0000 then 1 else id + 1
  }

  function IdAfter(start: uint16, calls: nat): uint16
  {
    if calls == 0 then start else NextId(IdAfter(start, calls - 1))
  }

  lemma {:induction false} IdsWrapToOne(start: uint16, calls: nat)
    requires 1 <= calls
    ensures IdAfter(start, calls) == (start + calls - 1) % 0xFFFF + 1
  {
    if calls > 1 {
      IdsWrapToOne(start, calls - 1);
      NextResidue(start + calls - 2);
    }
  }

  lemma NextResidue(x: nat)
    ensures (x + 1) % 0xFFFF == if x % 0xFFFF == 0xFFFE then 0 else x % 0xFFFF + 1
  {
    var q, s := x / 0xFFFF, x % 0xFFFF;
    if s == 0xFFFE {
      Residue(q + 1, 0);
    } else {
      Residue(q, s + 1);
    }
  }

  // No id is 0, and 65535 calls in a row, from anywhere in the cycle, give 65535 different ids.
  lemma IdsNonZeroAndDistinct(start: uint16, i: nat, j: nat)
    requires 1 <= i < j < i + 0xFFFF
    ensures IdAfter(start, i) != 0 && IdAfter(start, i) != IdAfter(start, j)
  {
    IdsWrapToOne(start, i);
    IdsWrapToOne(start, j);
    DistinctResidues(start + i - 1, j - i);
  }

  lemma Residue(q: nat, s: nat)
    requires s < 0xFFFF
    ensures (0xFFFF * q + s) % 0xFFFF == s
  {
  }

  lemma DistinctResidues(x: nat, d: nat)
    requires 0 < d < 0xFFFF
    ensures (x + d) % 0xFFFF != x % 0xFFFF
  {
    var q, s := x / 0xFFFF, x % 0xFFFF + d;
    if s < 0xFFFF {
      Residue(q, s);
    } else {
      Residue(q + 1, s - 0xFFFF);
    }
  }

  lemma IdsInTurn(start: uint16, ids: seq<uint16>)
    requires forall i :: 0 <= i < |ids| ==> ids[i] == IdAfter(start, i + 1)
    ensures forall i :: 0 <= i < |ids| ==> ids[i] != 0
    ensures forall i, j :: 0 <= i < j < |ids| && j < i + 0xFFFF ==> ids[i] != ids[j]
  {
    hide IdAfter;
    forall i | 0 <= i < |ids|
      ensures ids[i] != 0
    {
      IdsNonZeroAndDistinct(start, i + 1, i + 2);
    }
    forall i, j | 0 <= i < j < |ids| && j < i + 0xFFFF
      ensures ids[i] != ids[j]
    {
      IdsNonZeroAndDistinct(start, i + 1, j + 1);
    }
  }

  // ---- what a call achieves --------------------------------------------------------------------------------------

  // What success means: the message went out during the call, and if a reply was awaited it came in after that.
  ghost predicate Delivered(before: Trace, after: Trace, sent: Message, needReply: bool)
  {
    exists i :: |before| <= i < |after| && after[i].Sent? && after[i].ok && after[i].message == sent
                && (needReply && ReplyCode(sent) != 0 ==> i < |after| - 1 && EndsInReply(after, sent))
  }

  ghost predicate EndsInReply(t: Trace, sent: Message)
  {
    t != [] && t[|t| - 1].Received? && Answers(t[|t| - 1].message, ReplyCode(sent), PacketId(sent))
  }

  ghost function ReplyCode(m: Message): byte
  {
    if (m.Publish? || m.PublishFrom?) && Qos(m.flags) == 3 then 0 else ResponseType(m)
  }

  // The replies of sections 3.2, 3.4, 3.9 and 3.11 of MQTT Version 3.1.1. The id 0 stands for any.
  ghost predicate EndsInConnAck(t: Trace)
  {
    t != [] && t[|t| - 1].Received? && t[|t| - 1].message.ConnAck?
  }

  ghost predicate EndsInPubAck(t: Trace, id: uint16)
  {
    t != [] && t[|t| - 1].Received? && t[|t| - 1].message.PubAck? && (id == 0 || t[|t| - 1].message.packetId == id)
  }

  ghost predicate EndsInSubAck(t: Trace, id: uint16)
  {
    && t != [] && t[|t| - 1].Received? && (t[|t| - 1].message.SubAck? || t[|t| - 1].message.SubAckStream?)
    && (id == 0 || t[|t| - 1].message.packetId == id)
  }

  ghost predicate EndsInUnsubAck(t: Trace, id: uint16)
  {
    t != [] && t[|t| - 1].Received? && t[|t| - 1].message.UnsubAck? && (id == 0 || t[|t| - 1].message.packetId == id)
  }

  lemma EndsInItsReply(before: Trace, after: Trace, sent: Message)
    requires Delivered(before, after, sent, true)
    ensures sent.Connect? ==> EndsInConnAck(after)
    ensures (sent.Publish? || sent.PublishFrom?) && sent.flags / 2 % 4 == 1 ==> EndsInPubAck(after, sent.packetId)
    ensures sent.Subscribe? ==> EndsInSubAck(after, sent.packetId)
    ensures sent.Unsubscribe? ==> EndsInUnsubAck(after, sent.packetId)
  {
    if ReplyCode(sent) != 0 {
      DeliveredEnds(before, after, sent);
    }
  }

  lemma DeliveredEnds(before: Trace, after: Trace, sent: Message)
    requires Delivered(before, after, sent, true) && ReplyCode(sent) != 0
    ensures EndsInReply(after, sent)
  {
  }

  lemma NowDelivered(before: Trace, s: nat, start: Trace, serial: nat, sent: Message, needReply: bool)
    requires Grown(before, s, start) && (!needReply || ReplyCode(sent) == 0)
    ensures Delivered(before, start + [Sent(serial, sent, true)], sent, needReply)
  {
    var t := start + [Sent(serial, sent, true)];
    assert t[|start|] == Sent(serial, sent, true);
  }

  lemma NowAnswered(before: Trace, s: nat, start: Trace, serial: nat, sent: Message, needReply: bool, u: nat, after: Trace)
    requires Grown(before, s, start) && Grown(start + [Sent(serial, sent, true)], u, after) && |after| > |start| + 1
    requires EndsInReply(after, sent)
    ensures Delivered(before, after, sent, needReply)
  {
    var t := start + [Sent(serial, sent, true)];
    assert t[|start|] == Sent(serial, sent, true) && after[|start|] == t[|start|];
    hide EndsInReply;
  }

  lemma ReplyEnds(t: Trace, sent: Message)
    requires t != [] && t[|t| - 1].Received? && Answers(t[|t| - 1].message, ReplyCode(sent), PacketId(sent))
    ensures EndsInReply(t, sent)
  {
  }

  lemma DeliveredEarlier(a: Trace, s: nat, b: Trace, c: Trace, sent: Message, needReply: bool)
    requires Grown(a, s, b) && Delivered(b, c, sent, needReply)
    ensures Delivered(a, c, sent, needReply)
  {
    hide EndsInReply;
  }

  lemma GrownPrefix(a: Trace, s: nat, b: Trace)
    requires Grown(a, s, b)
    ensures a <= b
  {
  }

  lemma GrownLonger(a: Trace, s: nat, b: Trace)
    requires Grown(a, s, b)
    ensures |a| <= |b|
  {
  }

  lemma NotPublish(m: Message, code: byte, id: uint16)
    requires TypeCode(m) == code != 3
    ensures PublishOf(m) == [] && (Answers(m, code, id) <==> id == 0 || PacketId(m) == id)
  {
  }

  ghost predicate WrongId(t: Trace, code: byte, id: uint16)
  {
    t != [] && t[|t| - 1].Received? && TypeCode(t[|t| - 1].message) == code && PacketId(t[|t| - 1].message) != id
  }

  lemma WrongIdEnds(t: Trace, m: Message, code: byte, id: uint16)
    requires TypeCode(m) == code
    ensures WrongId(t + [Received(m)], code, id) <==> PacketId(m) != id
  {
  }

  // A call begins with a transmission of its own.
  ghost predicate BeginsWith(before: Trace, after: Trace, sent: Message)
  {
    |before| < |after| && after[|before|].Sent? && after[|before|].message == sent
  }

  lemma BeginsWithLater(before: Trace, middle: Trace, s: nat, after: Trace, sent: Message)
    requires BeginsWith(before, middle, sent) && Grown(middle, s, after)
    ensures BeginsWith(before, after, sent)
  {
  }

  lemma NextSerial(t: Trace, serial: nat)
    requires SerialsBelow(t, serial)
    ensures SerialsBelow(t, serial + 1) && forall m :: SameMessage(t, serial, m)
  {
  }

  lemma AfterNested(t: Trace, s: nat, u: Trace, serial: nat, sent: Message)
    requires Grown(t, s, u) && serial < s && MaySend(t, sent) && SameMessage(t, serial, sent) && !sent.PingReq?
    ensures MaySend(u, sent) && SameMessage(u, serial, sent) && Transmissions(u, serial) == Transmissions(t, serial)
  {
    GrownKeepsPermission(t, s, u, sent);
    GrownKeepsCount(t, s, u, serial);
    hide MaySend, Transmissions;
  }

  lemma FreeToSend(t: Trace, m: Message)
    requires !m.PingReq? && !m.PubComp? && !m.PubRel?
    ensures MaySend(t, m)
  {
  }

  lemma RecordedIsReleased(before: Trace, after: Trace, id: uint16)
    requires Delivered(before, after, PubRec(id), true)
    ensures MaySend(after, PubComp(id))
  {
    var i :| |before| <= i < |after| && after[i].Sent? && after[i].ok && after[i].message == PubRec(id)
             && i < |after| - 1 && EndsInReply(after, PubRec(id));
    assert SentRec(after[i], id);
  }

  // The exchange of section 4.3.3 of MQTT Version 3.1.1, in order and with one id, whatever lies in between.
  ghost predicate ExactlyOnce(before: Trace, after: Trace, pub: Message)
    requires pub.Publish? || pub.PublishFrom?
  {
    exists i, j, k, l :: StepsAt(before, after, pub, i, j, k, l)
  }

  ghost predicate StepsAt(before: Trace, after: Trace, pub: Message, i: nat, j: nat, k: nat, l: nat)
    requires pub.Publish? || pub.PublishFrom?
  {
    && |before| <= i < j < k < l < |after|
    && after[i].Sent? && after[i].ok && after[i].message == pub
    && after[j] == Received(PubRec(pub.packetId))
    && after[k].Sent? && after[k].ok && after[k].message == PubRel(pub.packetId)
    && after[l] == Received(PubComp(pub.packetId))
  }

  lemma DeliveredIsRecorded(before: Trace, after: Trace, pub: Message)
    requires (pub.Publish? || pub.PublishFrom?) && Qos(pub.flags) == 2 && Delivered(before, after, pub, true)
    ensures MaySend(after, PubRel(pub.packetId))
  {
    var i :| |before| <= i < |after| && after[i].Sent? && after[i].ok && after[i].message == pub
             && i < |after| - 1 && EndsInReply(after, pub);
    assert SentPublish(after[i], pub.packetId);
  }

  lemma ReplyToPublish(t: Trace, pub: Message)
    requires (pub.Publish? || pub.PublishFrom?) && Qos(pub.flags) == 2 && pub.packetId != 0 && EndsInReply(t, pub)
    ensures t[|t| - 1] == Received(PubRec(pub.packetId))
  {
  }

  lemma ReplyToRelease(t: Trace, id: uint16)
    requires id != 0 && EndsInReply(t, PubRel(id))
    ensures t[|t| - 1] == Received(PubComp(id))
  {
  }

  lemma BothHalves(before: Trace, middle: Trace, s: nat, after: Trace, pub: Message)
    requires (pub.Publish? || pub.PublishFrom?) && Qos(pub.flags) == 2 && pub.packetId != 0
    requires Delivered(before, middle, pub, true) && Grown(middle, s, after)
    requires Delivered(middle, after, PubRel(pub.packetId), true)
    ensures ExactlyOnce(before, after, pub)
  {
    var i :| |before| <= i < |middle| && middle[i].Sent? && middle[i].ok && middle[i].message == pub
             && i < |middle| - 1 && EndsInReply(middle, pub);
    var rel := PubRel(pub.packetId);
    var k :| |middle| <= k < |after| && after[k].Sent? && after[k].ok && after[k].message == rel
             && k < |after| - 1 && EndsInReply(after, rel);
    var j, l := |middle| - 1, |after| - 1;
    ReplyToPublish(middle, pub);
    ReplyToRelease(after, pub.packetId);
    hide EndsInReply;
    assert after[i] == middle[i] && after[j] == middle[j];
    assert StepsAt(before, after, pub, i, j, k, l);
  }

  lemma DeliveredLater(before: Trace, middle: Trace, s: nat, after: Trace)
    requires Delivered(before, middle, PingReq, false) && Grown(middle, s, after)
    ensures Delivered(before, after, PingReq, false)
  {
    var i :| |before| <= i < |middle| && middle[i].Sent? && middle[i].ok && middle[i].message == PingReq;
    assert after[i] == middle[i];
  }

  lemma QuietGrows(clock: nat, passed: nat, last: nat)
    requires clock < 0x1_0000_0000 && last < 0x1_0000_0000
    ensures Clock.Wrap(Clock.Wrap(clock + passed) - last) == Clock.Wrap(Clock.Wrap(clock - last) + passed)
    ensures Clock.Wrap(clock - last) + passed < 0x1_0000_0000
            ==> Clock.Wrap(Clock.Wrap(clock + passed) - last) == Clock.Wrap(clock - last) + passed
  {
    Clock.WrapOfSum(clock + passed, 0 - last);
    Clock.WrapOfSum(clock - last, passed);
    if Clock.Wrap(clock - last) + passed < 0x1_0000_0000 {
      Clock.WrapOfSmall(Clock.Wrap(clock - last) + passed);
    }
  }

  // A SUBACK has come in since.
  ghost predicate SubAckSince(before: Trace, after: Trace)
  {
    exists i :: |before| <= i < |after| && after[i].Received? && TypeCode(after[i].message) == 9
  }

  // The note of a SUBACK is an old one, or one has come in since.
  ghost predicate Noted(now: bool, was: bool, before: Trace, after: Trace)
  {
    now ==> was || SubAckSince(before, after)
  }

  lemma NotedTwice(was: bool, a: Trace, s: nat, between: bool, b: Trace, u: nat, now: bool, c: Trace)
    requires Grown(a, s, b) && Grown(b, u, c) && Noted(between, was, a, b) && Noted(now, between, b, c)
    ensures Noted(now, was, a, c)
  {
    GrownPrefix(a, s, b);
    GrownPrefix(b, u, c);
    hide Grown;
  }

  lemma NotedStill(was: bool, before: Trace, after: Trace)
    ensures Noted(was, was, before, after)
  {
  }

  lemma NotedMeans(was: bool, before: Trace, after: Trace)
    requires Noted(true, was, before, after)
    ensures was || SubAckSince(before, after)
  {
  }

  lemma NotedNot(was: bool, before: Trace, after: Trace)
    ensures Noted(false, was, before, after)
  {
  }

  lemma SinceEarlier(was: bool, a: Trace, s: nat, between: bool, b: Trace, u: nat, c: Trace)
    requires Grown(a, s, b) && Grown(b, u, c) && Noted(between, was, a, b)
    ensures between || SubAckSince(b, c) ==> was || SubAckSince(a, c)
  {
    if between || SubAckSince(b, c) {
      NotedTwice(was, a, s, between, b, u, true, c);
    }
  }

  lemma JustNoted(was: bool, before: Trace, m: Message)
    requires TypeCode(m) == 9
    ensures Noted(true, was, before, before + [Received(m)])
  {
    assert (before + [Received(m)])[|before|] == Received(m);
  }

  // What a message expects, and whether it may be sent, does not depend on the id it is given.
  lemma Prepared(t: Trace, msg: Message, needId: bool, id: uint16)
    requires (msg.Publish? || msg.PublishFrom? ==> Qos(msg.flags) < 3) && (needId ==> TakesId(msg)) && MaySend(t, msg)
    ensures var sent := if needId then WithId(msg, id) else msg;
            && ResponseType(msg) == ReplyCode(sent) != 3 && (sent.PingReq? <==> msg.PingReq?) && MaySend(t, sent)
  {
    hide PingOpen, Released, Recorded;
  }

  lemma TakesIdMeans(m: Message)
    requires TakesId(m)
    ensures m.Publish? || m.PublishFrom? || m.Subscribe? || m.Unsubscribe?
  {
  }

  lemma HandedOver(m: Message)
    ensures m.Publish? || m.PublishStream? ==> IsPublish(m) && Qos(m.flags) == m.flags / 2 % 4
  {
  }

  lemma PingsAreNotPublish(m: Message)
    ensures m.PingReq? || m.PingResp? ==> !IsPublish(m)
  {
  }

  // No packet was there, or none that readPacket makes a message of.
  ghost predicate Nothing(before: seq<Option<Message>>, now: seq<Option<Message>>)
  {
    now == before || (before != [] && before[0].None? && now == before[1..])
  }

  // The first packet was received and handled.
  ghost predicate TookFirst(packets: seq<Option<Message>>, before: Trace, now: Trace)
  {
    packets != [] && packets[0].Some? && before + [Received(packets[0].value), Handled(packets[0].value)] <= now
  }

  // ---- the client ------------------------------------------------------------------------------------------------

  class PubSubClient {
    var nextMsgId: uint16
    var keepalive: uint16
    const maxRetries: nat
    var lastOutActivity: nat
    var lastInActivity: nat
    var pingOutstanding: bool
    var isSubAckFound: bool

    // The world: the value of the millisecond counter, and all packets this connection will ever deliver. None stands
    // for one that readPacket reads past without making a message of it.
    var clock: nat
    var inbox: seq<Option<Message>>

    ghost var trace: Trace
    ghost var serials: nat

    ghost predicate Valid()
      reads this
    {
      && clock < 0x1_0000_0000 && lastOutActivity < 0x1_0000_0000 && lastInActivity < 0x1_0000_0000
      && Lawful(trace, maxRetries) && SerialsBelow(trace, serials)
      && PublishesIn(trace) == Callbacks(trace)
    }

    ghost predicate Tied()
      reads this
    {
      PingOpen(trace) == pingOutstanding
    }

    constructor (retries: nat)
      requires retries < 256
      ensures Valid() && Tied() && trace == [] && maxRetries == retries
    {
      maxRetries := retries;
      nextMsgId, keepalive, lastOutActivity, lastInActivity := 0, 0, 0, 0;
      pingOutstanding, isSubAckFound := false, false;
      clock, inbox, trace, serials := 0, [], [], 0;
    }

    // ---- the world -----------------------------------------------------------------------------------------------

    const SLICE: nat := 0x4000_0000

    method Millis() returns (t: nat, ghost passed: nat)
      requires clock < 0x1_0000_0000
      modifies this`clock
      ensures clock == t < 0x1_0000_0000 && passed < SLICE && clock == Clock.Wrap(old(clock) + passed)
    {
      var more: nat :| more < SLICE;
      passed := more;
      clock := Clock.Wrap(clock + more);
      t := clock;
    }

    // Handing over to other tasks takes at least a millisecond.
    method Yield() returns (ghost passed: nat)
      requires clock < 0x1_0000_0000
      modifies this`clock
      ensures clock < 0x1_0000_0000 && 0 < passed < SLICE && clock == Clock.Wrap(old(clock) + passed)
    {
      var more: nat :| 0 < more < SLICE;
      passed := more;
      clock := Clock.Wrap(clock + more);
    }

    // A packet still to come may or may not have arrived yet.
    method Available() returns (there: bool)
      ensures there ==> inbox != []
    {
      var arrived: bool := *;
      there := arrived && inbox != [];
    }

    method Connected() returns (up: bool)
    {
      up := *;
    }

    // The network takes a packet, or part of it.
    method Write() returns (ok: bool)
    {
      ok := *;
    }

    // A new connection delivers packets of its own.
    method FreshInbox()
      modifies this`inbox
    {
      inbox := *;
    }

    // ---- receiving -----------------------------------------------------------------------------------------------

    // _recv_message; a message is left to be handled.
    method RecvMessage() returns (m: Option<Message>)
      requires Valid() && Tied() && inbox != []
      modifies this`clock, this`inbox, this`lastInActivity, this`trace
      ensures clock < 0x1_0000_0000 && lastInActivity < 0x1_0000_0000
      ensures m == old(inbox[0]) && inbox == old(inbox[1..])
      ensures lastInActivity == if m.Some? then clock else old(lastInActivity)
      ensures m.None? ==> trace == old(trace) && Valid()
      ensures Grown(old(trace), serials, trace)
      ensures m.Some? ==> trace == old(trace) + [Received(m.value)] && Pending(m.value)
      ensures Tied()
    {
      hide Lawful, SerialsBelow, Transmissions, PingOpen, PublishesIn, Callbacks, MaySend, SameMessage, Grown, Answers, PublishOf;
      m := inbox[0];
      inbox := inbox[1..];
      if m.Some? {
        var now, _ := Millis();
        lastInActivity := now;
        AppendOther(trace, serials, serials, maxRetries, Received(m.value));
        trace := trace + [Received(m.value)];
      } else {
        GrownNot(trace, serials);
      }
    }

    // Valid, except that the message just received is still to be handled.
    ghost predicate Pending(m: Message)
      reads this
    {
      && clock < 0x1_0000_0000 && lastOutActivity < 0x1_0000_0000 && lastInActivity < 0x1_0000_0000
      && Lawful(trace, maxRetries) && SerialsBelow(trace, serials)
      && PublishesIn(trace) == Callbacks(trace) + PublishOf(m)
    }

    // How long ago, by the wrapping counter, something last came in.
    ghost function Quiet(): nat
      reads this
    {
      Clock.Wrap(clock - lastInActivity)
    }

    // Lines 127 to 131: waits for bytes for the keepalive time at most.
    method AwaitBytes() returns (there: bool)
      requires Valid()
      modifies this`clock
      ensures Valid() && (!there ==> Quiet() > keepalive * 1000)
    {
      hide Clock.Wrap, Lawful, SerialsBelow, PublishesIn, Callbacks;
      ghost var settled := false;
      while true
        invariant Valid() && (settled ==> Quiet() < keepalive * 1000 + SLICE)
        decreases if settled then keepalive * 1000 + SLICE - Quiet() else 0x1_0000_0000
      {
        var bytes := Available();
        if bytes {
          return true;
        }
        ghost var was, before := clock, Quiet();
        var now, passed := Millis();
        QuietGrows(was, passed, lastInActivity);
        if Clock.Wrap(now - lastInActivity) > keepalive * 1000 {
          return false;
        }
        ghost var at, between := clock, Quiet();
        var more := Yield();
        QuietGrows(at, more, lastInActivity);
        settled := true;
      }
    }

    // ---- sending, waiting and handling ---------------------------------------------------------------------------

    // _send_message. The messages transmitted carry the number serials had before, and success with a reply asked for
    // means that this call's message went out and its reply came in after it.
    method SendMessage(msg: Message, needId: bool, needReply: bool) returns (outcome: Outcome, sent: Message)
      requires Valid() && Tied()
      requires msg.Publish? || msg.PublishFrom? ==> Qos(msg.flags) < 3
      requires needId ==> TakesId(msg)
      requires MaySend(trace, msg) && (msg.PingReq? ==> !needReply)
      modifies this
      ensures Valid() && |inbox| <= |old(inbox)| && keepalive == old(keepalive)
      ensures Grown(old(trace), old(serials), trace) && old(serials) < serials
      ensures nextMsgId == if needId then NextId(old(nextMsgId)) else old(nextMsgId)
      ensures !needId ==> sent == msg
      ensures needId && msg.Publish? ==> sent == MqttCodec.Publish(msg.flags, nextMsgId, msg.topic, msg.payload)
      ensures needId && msg.PublishFrom? ==> sent == PublishFrom(msg.flags, nextMsgId, msg.topic, msg.length)
      ensures needId && msg.Subscribe? ==> sent == MqttCodec.Subscribe(nextMsgId, msg.buffer)
      ensures needId && msg.Unsubscribe? ==> sent == Unsubscribe(nextMsgId, msg.buffer)
      ensures msg.PingReq? && outcome == Done(true) ==> PingOpen(trace) && pingOutstanding == old(pingOutstanding)
      ensures !(msg.PingReq? && outcome == Done(true)) ==> Tied()
      ensures outcome == Done(true) ==> Delivered(old(trace), trace, sent, needReply)
      ensures outcome == Done(true) && !needReply ==> lastOutActivity == clock
      ensures outcome == Done(false) ==> Transmissions(trace, old(serials)) == maxRetries + 1
      ensures outcome == Blocked ==> inbox == [] && needReply
      ensures BeginsWith(old(trace), trace, sent)
      ensures Noted(isSubAckFound, old(isSubAckFound), old(trace), trace)
      decreases |inbox|, 1
    {
      hide NextId, WithId, TakesId, Delivered, ReplyCode, ResponseType, PacketId, Qos, Noted;
      hide Lawful, SerialsBelow, Transmissions, PingOpen, PublishesIn, Callbacks, MaySend, SameMessage, Grown, BeginsWith;
      var reply := ResponseType(msg);
      sent := msg;
      if needId {
        TakesIdMeans(msg);
        nextMsgId := NextId(nextMsgId);
        OnlyTheIdChanges(msg, nextMsgId);
        sent := WithId(msg, nextMsgId);
      }
      Prepared(trace, msg, needId, nextMsgId);
      ghost var serial := serials;
      FreshSerial(trace, serial);
      NextSerial(trace, serials);
      serials := serials + 1;
      var retries, again := 0, true;
      GrownNot(trace, serial);
      NotedStill(isSubAckFound, trace, trace);
      outcome := Done(false);
      while again
        invariant Valid() && serial < serials && Grown(old(trace), serial, trace)
        invariant |inbox| <= |old(inbox)| && keepalive == old(keepalive)
        invariant nextMsgId == if needId then NextId(old(nextMsgId)) else old(nextMsgId)
        invariant again ==> Ready(serial, sent) && outcome == Done(false)
        invariant again ==> Transmissions(trace, serial) == retries <= maxRetries
        invariant msg.PingReq? && (again || outcome == Done(true)) ==> pingOutstanding == old(pingOutstanding)
        invariant msg.PingReq? && outcome == Done(true) ==> PingOpen(trace)
        invariant !(msg.PingReq? && outcome == Done(true)) ==> Tied()
        invariant outcome == Done(true) ==> Delivered(old(trace), trace, sent, needReply)
        invariant outcome == Done(true) && !needReply ==> lastOutActivity == clock
        invariant !again && outcome == Done(false) ==> Transmissions(trace, serial) == maxRetries + 1
        invariant outcome == Blocked ==> inbox == [] && needReply
        invariant if retries == 0 && again then trace == old(trace) else BeginsWith(old(trace), trace, sent)
        invariant Noted(isSubAckFound, old(isSubAckFound), old(trace), trace)
        decreases if again then maxRetries - retries + 1 else 0
      {
        ghost var start, noted := trace, isSubAckFound;
        outcome := Try(serial, sent, reply, needReply);
        NotedTwice(old(isSubAckFound), old(trace), serial, noted, start, serial, isSubAckFound, trace);
        GrownTwice(old(trace), serial, start, serial, trace);
        if retries > 0 {
          BeginsWithLater(old(trace), start, serial, trace, sent);
        }
        if outcome == Done(true) {
          DeliveredEarlier(old(trace), serial, start, trace, sent, needReply);
        }
        again := outcome == Done(false) && retries < maxRetries;
        if again {
          retries := retries + 1;
        }
      }
    }

    ghost predicate Ready(serial: nat, sent: Message)
      reads this
    {
      Valid() && Tied() && serial < serials && MaySend(trace, sent) && SameMessage(trace, serial, sent)
    }

    // One round of lines 63 to 81: transmit and, if a reply is wanted, wait for it.
    method Try(ghost serial: nat, sent: Message, reply: byte, needReply: bool) returns (outcome: Outcome)
      requires Ready(serial, sent) && Transmissions(trace, serial) <= maxRetries
      requires reply == ReplyCode(sent) != 3 && (sent.PingReq? ==> !needReply)
      modifies this
      ensures Valid() && |inbox| <= |old(inbox)| && keepalive == old(keepalive) && nextMsgId == old(nextMsgId)
      ensures Grown(old(trace), serial, trace) && old(serials) <= serials
      ensures Transmissions(trace, serial) == Transmissions(old(trace), serial) + 1
      ensures outcome == Done(false) ==> Ready(serial, sent)
      ensures sent.PingReq? ==> pingOutstanding == old(pingOutstanding)
      ensures if sent.PingReq? && outcome == Done(true) then PingOpen(trace) else Tied()
      ensures outcome == Done(true) ==> Delivered(old(trace), trace, sent, needReply)
      ensures outcome == Done(true) && !needReply ==> lastOutActivity == clock
      ensures outcome == Blocked ==> inbox == [] && needReply
      ensures BeginsWith(old(trace), trace, sent)
      ensures Noted(isSubAckFound, old(isSubAckFound), old(trace), trace)
      decreases |inbox|, 1, 0
    {
      hide Noted;
      hide Delivered, ReplyCode, ResponseType, PacketId;
      hide Lawful, SerialsBelow, Transmissions, PingOpen, PublishesIn, Callbacks, MaySend, SameMessage, Grown, Answers;
      ghost var start := trace;
      GrownNot(start, serial);
      var ok := Transmit(serial, sent);
      NotedStill(isSubAckFound, start, trace);
      if !ok {
        return Done(false);
      }
      ghost var t, s := trace, serials;
      var now, _ := Millis();
      lastOutActivity := now;
      if !needReply || reply == 0 {
        NowDelivered(start, serial, start, serial, sent, needReply);
        return Done(true);
      }
      outcome := WaitFor(reply, PacketId(sent));
      AfterNested(t, s, trace, serial, sent);
      NotedTwice(old(isSubAckFound), start, serial, old(isSubAckFound), t, s, isSubAckFound, trace);
      BeginsWithLater(start, t, s, trace, sent);
      GrownTwice(start, serial, t, s, trace);
      if outcome == Done(true) {
        ReplyEnds(trace, sent);
        NowAnswered(start, serial, start, serial, sent, needReply, s, trace);
      }
    }

    // One try: lines 63 to 69.
    method Transmit(ghost serial: nat, sent: Message) returns (ok: bool)
      requires Valid() && Tied() && serial < serials
      requires MaySend(trace, sent) && SameMessage(trace, serial, sent) && Transmissions(trace, serial) <= maxRetries
      modifies this`trace
      ensures Valid() && trace == old(trace) + [Sent(serial, sent, ok)] && Grown(old(trace), serial, trace)
      ensures Transmissions(trace, serial) == Transmissions(old(trace), serial) + 1
      ensures SameMessage(trace, serial, sent)
      ensures if sent.PingReq? && ok then PingOpen(trace) else Tied() && MaySend(trace, sent)
    {
      hide Lawful, SerialsBelow, Transmissions, PingOpen, PublishesIn, Callbacks, MaySend, SameMessage, Grown, Answers, PublishOf;
      ok := Write();
      AppendSent(trace, serials, maxRetries, serial, sent, ok);
      trace := trace + [Sent(serial, sent, ok)];
    }

    // _wait_for: handles other packets until the one asked for comes, too much time passes, or a SUBACK turned up
    // elsewhere.
    method WaitFor(matchType: byte, matchPid: uint16) returns (outcome: Outcome)
      requires Valid() && Tied() && matchType != 3
      modifies this
      ensures Valid() && Tied() && |inbox| <= |old(inbox)| && keepalive == old(keepalive) && nextMsgId == old(nextMsgId)
      ensures Grown(old(trace), old(serials), trace) && old(serials) <= serials
      ensures outcome == Done(true) ==>
                && |trace| > |old(trace)| && trace[|trace| - 1].Received?
                && Answers(trace[|trace| - 1].message, matchType, matchPid)
      ensures outcome == Done(false) ==>
                || Quiet() > keepalive * 1000 || clock >= Clock.Wrap(lastInActivity + keepalive * 1000)
                || (|trace| > |old(trace)| && WrongId(trace, matchType, matchPid))
                || (matchType == 9 && (old(isSubAckFound) || SubAckSince(old(trace), trace)))
      ensures outcome == Blocked ==> inbox == []
      ensures Noted(isSubAckFound, old(isSubAckFound), old(trace), trace)
      decreases |inbox|, 0
    {
      GrownNot(trace, serials);
      hide Lawful, SerialsBelow, Transmissions, PingOpen, PublishesIn, Callbacks, MaySend, SameMessage, Grown, Answers, PublishOf, Clock.Wrap;
      hide SubAckSince, Noted;
      NotedStill(isSubAckFound, trace, trace);
      var there := AwaitBytes();
      if !there {
        return Done(false);
      }
      while true
        invariant Valid() && Tied() && |inbox| <= |old(inbox)|
        invariant keepalive == old(keepalive) && nextMsgId == old(nextMsgId)
        invariant Grown(old(trace), old(serials), trace) && old(serials) <= serials
        invariant Noted(isSubAckFound, old(isSubAckFound), old(trace), trace)
        decreases |inbox|
      {
        var now, _ := Millis();
        if now >= Clock.Wrap(lastInActivity + keepalive * 1000) {
          return Done(false);
        }
        if inbox == [] {
          return Blocked;
        }
        ghost var before, serial, noted := trace, serials, isSubAckFound;
        var over, o := CheckOne(matchType, matchPid);
        GrownTwice(old(trace), old(serials), before, serial, trace);
        GrownLonger(old(trace), old(serials), before);
        NotedTwice(old(isSubAckFound), old(trace), old(serials), noted, before, serial, isSubAckFound, trace);
        if over {
          if o == Done(false) && matchType == 9 {
            SinceEarlier(old(isSubAckFound), old(trace), old(serials), noted, before, serial, trace);
          }
          return o;
        }
        var _ := Yield();
      }
    }

    // Lines 135 to 158: one packet. over: it was the one asked for, or the wait is given up.
    method CheckOne(matchType: byte, matchPid: uint16) returns (over: bool, outcome: Outcome)
      requires Valid() && Tied() && matchType != 3 && inbox != []
      modifies this
      ensures Valid() && Tied() && |inbox| < |old(inbox)| && keepalive == old(keepalive) && nextMsgId == old(nextMsgId)
      ensures Grown(old(trace), old(serials), trace) && old(serials) <= serials
      ensures over && outcome == Done(true) ==>
                && |trace| > |old(trace)| && trace[|trace| - 1].Received?
                && Answers(trace[|trace| - 1].message, matchType, matchPid)
      ensures over && outcome == Done(false) ==>
                || (|trace| > |old(trace)| && WrongId(trace, matchType, matchPid))
                || (matchType == 9 && (old(isSubAckFound) || SubAckSince(old(trace), trace)))
      ensures over && outcome == Blocked ==> inbox == []
      ensures Noted(isSubAckFound, old(isSubAckFound), old(trace), trace)
      decreases |inbox|, 0, 0
    {
      hide Lawful, SerialsBelow, Transmissions, PingOpen, PublishesIn, Callbacks, MaySend, SameMessage, Grown, Answers,
           PublishOf, Clock.Wrap, SubAckSince, Noted;
      ghost var before, serial, noted := trace, serials, isSubAckFound;
      NotedStill(noted, before, before);
      over, outcome := false, Done(false);
      var m := RecvMessage();
      NotedStill(noted, before, trace);
      if m.Some? {
        if TypeCode(m.value) == matchType {
          NotPublish(m.value, matchType, matchPid);
          WrongIdEnds(before, m.value, matchType, matchPid);
          return true, Done(matchPid == 0 || PacketId(m.value) == matchPid);
        } else if TypeCode(m.value) == 9 {
          isSubAckFound := true;
          JustNoted(noted, before, m.value);
        }
        ghost var t, between := trace, isSubAckFound;
        var blocked := ProcessMessage(m.value);
        GrownTwice(before, serial, t, serial, trace);
        NotedTwice(noted, before, serial, between, t, serial, isSubAckFound, trace);
        if blocked {
          return true, Blocked;
        }
        if matchType == 9 && isSubAckFound {
          NotedMeans(noted, before, trace);
          isSubAckFound := false;
          NotedNot(noted, before, trace);
          over := true;
        }
      }
    }

    // _process_message. The callback is not supposed to call back into the client.
    method ProcessMessage(m: Message) returns (blocked: bool)
      requires Pending(m) && Tied()
      modifies this
      ensures Valid() && Tied() && |inbox| <= |old(inbox)| && keepalive == old(keepalive) && nextMsgId == old(nextMsgId)
      ensures Grown(old(trace), old(serials), trace) && old(serials) <= serials
      ensures blocked ==> inbox == []
      ensures old(trace) + [Handled(m)] <= trace
      ensures m.PingReq? ==> BeginsWith(old(trace) + [Handled(m)], trace, PingResp)
      ensures m.PingResp? ==> !pingOutstanding && trace == old(trace) + [Handled(m)]
      ensures (m.Publish? || m.PublishStream?) && m.flags / 2 % 4 == 1 ==>
                BeginsWith(old(trace) + [Handled(m)], trace, PubAck(m.packetId))
      ensures (m.Publish? || m.PublishStream?) && m.flags / 2 % 4 == 2 ==>
                BeginsWith(old(trace) + [Handled(m)], trace, PubRec(m.packetId))
      ensures Noted(isSubAckFound, old(isSubAckFound), old(trace), trace)
      decreases |inbox|, 3
    {
      hide IsPublish, TypeCode, Qos, Noted, PublishOf;
      hide Lawful, SerialsBelow, Transmissions, PingOpen, PublishesIn, Callbacks, MaySend, SameMessage, Grown, BeginsWith;
      ghost var s := serials;
      AppendOther(trace, s, s, maxRetries, Handled(m));
      trace := trace + [Handled(m)];
      ghost var t := trace;
      blocked := false;
      PingsAreNotPublish(m);
      HandedOver(m);
      GrownNot(t, s);
      NotedStill(isSubAckFound, old(trace), t);
      NotedStill(isSubAckFound, t, t);
      if IsPublish(m) {
        blocked := Acknowledge(m);
      } else if m.PingReq? {
        FreeToSend(t, PingResp);
        var _, _ := SendMessage(PingResp, false, false);
      } else if m.PingResp? {
        pingOutstanding := false;
      }
      GrownTwice(old(trace), s, t, s, trace);
      NotedTwice(old(isSubAckFound), old(trace), s, old(isSubAckFound), t, s, isSubAckFound, trace);
      GrownPrefix(t, s, trace);
    }

    // Lines 94 to 110: PUBACK for QoS 1; for QoS 2, PUBREC until the PUBREL comes, then PUBCOMP.
    method Acknowledge(m: Message) returns (blocked: bool)
      requires Valid() && Tied() && IsPublish(m)
      modifies this
      ensures Valid() && Tied() && |inbox| <= |old(inbox)| && keepalive == old(keepalive) && nextMsgId == old(nextMsgId)
      ensures Grown(old(trace), old(serials), trace) && old(serials) <= serials
      ensures blocked ==> inbox == []
      ensures Qos(m.flags) == 1 ==> BeginsWith(old(trace), trace, PubAck(m.packetId))
      ensures Qos(m.flags) == 2 ==> BeginsWith(old(trace), trace, PubRec(m.packetId))
      ensures Noted(isSubAckFound, old(isSubAckFound), old(trace), trace)
      decreases |inbox|, 2
    {
      NotedStill(isSubAckFound, trace, trace);
      ghost var t0, s0 := trace, serials;
      var id: uint16 := m.packetId;
      FreeToSend(trace, PubAck(id));
      FreeToSend(trace, PubRec(id));
      GrownNot(trace, serials);
      hide Lawful, SerialsBelow, Transmissions, PingOpen, PublishesIn, Callbacks, MaySend, SameMessage, Grown, Answers, PublishOf;
      if Qos(m.flags) == 1 {
        var _, _ := SendMessage(PubAck(id), false, false);
      } else if Qos(m.flags) == 2 {
        var outcome, _ := SendMessage(PubRec(id), false, true);
        if outcome.Blocked? || !outcome.ok {
          return outcome.Blocked?;
        }
        ghost var t1, s1, noted := trace, serials, isSubAckFound;
        RecordedIsReleased(t0, t1, id);
        var _, _ := SendMessage(PubComp(id), false, false);
        GrownTwice(t0, s0, t1, s1, trace);
        NotedTwice(old(isSubAckFound), t0, s0, noted, t1, s1, isSubAckFound, trace);
        BeginsWithLater(t0, t1, s1, trace, PubRec(id));
      }
      blocked := false;
    }

    // ---- what sketches call --------------------------------------------------------------------------------------

    // connect: a new connection starts with no ping open and the ids from the beginning. Any CONNACK will do: its
    // return code is not looked at.
    method Connect(conn: Message) returns (outcome: Outcome)
      requires Valid() && Tied() && conn.Connect?
      modifies this
      ensures Valid() && Tied() && old(trace) <= trace
      ensures trace != old(trace) ==>
                old(trace) + [Opened] <= trace && keepalive == conn.keepalive && nextMsgId == 1
      ensures outcome == Done(true) ==>
                old(trace) + [Opened] <= trace && Delivered(old(trace) + [Opened], trace, conn, true)
      ensures outcome == Done(true) ==> EndsInConnAck(trace)
    {
      var up := Connected();
      if up {
        return Done(false);
      }
      var result: bool := *;
      if !result {
        return Done(false);
      }
      Open(conn.keepalive);
      FreeToSend(trace, conn);
      hide Lawful, SerialsBelow, Transmissions, PingOpen, PublishesIn, Callbacks, MaySend, SameMessage, Answers, Delivered;
      ghost var t := trace;
      var o, sent := SendMessage(conn, false, true);
      outcome := o;
      if outcome == Done(true) {
        EndsInItsReply(t, trace, sent);
      }
    }

    // Lines 194 to 197.
    method Open(period: uint16)
      requires Valid()
      modifies this
      ensures Valid() && Tied() && trace == old(trace) + [Opened]
      ensures keepalive == period && nextMsgId == 1 && lastInActivity == clock
    {
      hide Lawful, SerialsBelow, Transmissions, PingOpen, PublishesIn, Callbacks, Clock.Wrap;
      ForgetPing();
      nextMsgId := 1;
      var now, _ := Millis();
      lastInActivity := now;
      keepalive := period;
      FreshInbox();
    }

    method ForgetPing()
      requires Valid()
      modifies this`pingOutstanding, this`trace
      ensures Valid() && Tied() && trace == old(trace) + [Opened]
    {
      AppendOpened(trace, serials, maxRetries);
      hide Lawful, SerialsBelow, Transmissions, PingOpen, PublishesIn, Callbacks;
      trace := trace + [Opened];
      pingOutstanding := false;
    }

    // publish of a message with any QoS. needId is what set_qos leaves behind: true for QoS 1 and 2.
    method Publish(pub: Message, needId: bool) returns (outcome: Outcome, sent: Message)
      requires Valid() && Tied() && (pub.Publish? || pub.PublishFrom?)
      modifies this
      ensures Valid() && Tied() && old(trace) <= trace
      ensures nextMsgId == if needId && trace != old(trace) then NextId(old(nextMsgId)) else old(nextMsgId)
      ensures pub.Publish? ==>
                sent == MqttCodec.Publish(pub.flags, if needId && trace != old(trace) then nextMsgId else pub.packetId,
                                          pub.topic, pub.payload)
      ensures pub.PublishFrom? ==>
                sent == PublishFrom(pub.flags, if needId && trace != old(trace) then nextMsgId else pub.packetId,
                                    pub.topic, pub.length)
      ensures outcome == Done(true) ==> trace != old(trace)
      ensures outcome == Done(true) && Qos(pub.flags) <= 1 ==> Delivered(old(trace), trace, sent, Qos(pub.flags) == 1)
      ensures outcome == Done(true) && pub.flags / 2 % 4 == 1 ==> EndsInPubAck(trace, sent.packetId)
      ensures outcome == Done(true) && Qos(pub.flags) == 2 && sent.packetId != 0 ==>
                ExactlyOnce(old(trace), trace, sent)
      ensures Qos(pub.flags) == 3 ==> outcome == Done(false) && trace == old(trace)
    {
      sent := pub;
      var up := Connected();
      if !up || Qos(pub.flags) == 3 {
        return Done(false), sent;
      }
      FreeToSend(trace, pub);
      ghost var t0, s0 := trace, serials;
      hide Lawful, SerialsBelow, Transmissions, PingOpen, PublishesIn, Callbacks, MaySend, SameMessage, Answers;
      hide Delivered, ExactlyOnce, Qos;
      outcome, sent := SendMessage(pub, needId, Qos(pub.flags) != 0);
      if Qos(pub.flags) == 1 && outcome == Done(true) {
        EndsInItsReply(t0, trace, sent);
      }
      if Qos(pub.flags) == 2 && outcome == Done(true) {
        ghost var t1, s1 := trace, serials;
        DeliveredIsRecorded(t0, t1, sent);
        var rel := PubRel(sent.packetId);
        var o, _ := SendMessage(rel, false, true);
        outcome := o;
        GrownTwice(t0, s0, t1, s1, trace);
        if outcome == Done(true) && sent.packetId != 0 {
          BothHalves(t0, t1, s1, trace, sent);
        }
      }
    }

    // subscribe and unsubscribe.
    method Subscribe(sub: Message) returns (outcome: Outcome, sent: Message)
      requires Valid() && Tied() && (sub.Subscribe? || sub.Unsubscribe?)
      modifies this
      ensures Valid() && Tied() && old(trace) <= trace
      ensures nextMsgId == if trace != old(trace) then NextId(old(nextMsgId)) else old(nextMsgId)
      ensures sub.Subscribe? ==>
                sent == MqttCodec.Subscribe(if trace != old(trace) then nextMsgId else sub.packetId, sub.buffer)
      ensures sub.Unsubscribe? ==>
                sent == Unsubscribe(if trace != old(trace) then nextMsgId else sub.packetId, sub.buffer)
      ensures outcome == Done(true) ==> trace != old(trace) && sent.packetId != 0 && Delivered(old(trace), trace, sent, true)
      ensures outcome == Done(true) && sub.Subscribe? ==> EndsInSubAck(trace, sent.packetId)
      ensures outcome == Done(true) && sub.Unsubscribe? ==> EndsInUnsubAck(trace, sent.packetId)
    {
      var up := Connected();
      if !up {
        return Done(false), sub;
      }
      FreeToSend(trace, sub);
      hide Lawful, SerialsBelow, Transmissions, PingOpen, PublishesIn, Callbacks, MaySend, SameMessage, Answers, Delivered;
      outcome, sent := SendMessage(sub, true, true);
      if outcome == Done(true) {
        EndsInItsReply(old(trace), trace, sent);
      }
    }

    // Successive publishes on a connection: their ids are the next ones in turn, so that none is 0 and any 65535 of them
    // differ. It stops at the first that fails.
    method PublishAll(pubs: seq<Message>) returns (ids: seq<uint16>)
      requires Valid() && Tied() && forall p :: p in pubs ==> p.Publish? || p.PublishFrom?
      modifies this
      ensures Valid() && Tied() && old(trace) <= trace && |ids| <= |pubs|
      ensures forall i :: 0 <= i < |ids| ==> ids[i] == IdAfter(old(nextMsgId), i + 1)
      ensures forall i :: 0 <= i < |ids| ==> ids[i] != 0
      ensures forall i, j :: 0 <= i < j < |ids| && j < i + 0xFFFF ==> ids[i] != ids[j]
    {
      hide Lawful, SerialsBelow, PingOpen, PublishesIn, Callbacks, Delivered, ExactlyOnce, Qos;
      ids := [];
      while |ids| < |pubs|
        invariant Valid() && Tied() && old(trace) <= trace && |ids| <= |pubs|
        invariant nextMsgId == IdAfter(old(nextMsgId), |ids|)
        invariant forall i :: 0 <= i < |ids| ==> ids[i] == IdAfter(old(nextMsgId), i + 1)
      {
        var outcome, sent := Publish(pubs[|ids|], true);
        if outcome != Done(true) {
          break;
        }
        ids := ids + [sent.packetId];
      }
      IdsInTurn(old(nextMsgId), ids);
    }

    // loop: pings a connection that has been quiet for the keepalive time in either direction, gives it up when the
    // last ping is still open, and handles one packet. t is the time it goes by.
    method Loop() returns (outcome: Outcome, ghost up: bool, ghost t: nat)
      requires Valid() && Tied()
      modifies this
      ensures Valid() && Tied() && Grown(old(trace), old(serials), trace)
      ensures !up ==> outcome == Done(false) && trace == old(trace)
      ensures up && old(QuietAt(t)) && old(pingOutstanding) ==> outcome == Done(false) && trace == old(trace)
      ensures up && old(QuietAt(t)) && !old(pingOutstanding) ==> BeginsWith(old(trace), trace, PingReq)
      ensures up && old(QuietAt(t)) && outcome == Done(true) ==> Delivered(old(trace), trace, PingReq, false)
      ensures up && old(QuietAt(t)) && outcome == Done(true) && inbox == old(inbox) ==>
                pingOutstanding && lastInActivity == lastOutActivity == clock
      ensures up && !old(QuietAt(t)) ==>
                if Nothing(old(inbox), inbox) then trace == old(trace) && outcome == Done(true)
                else TookFirst(old(inbox), old(trace), trace)
    {
      up, t := false, 0;
      GrownNot(trace, serials);
      hide Lawful, SerialsBelow, Transmissions, PingOpen, PublishesIn, Callbacks, SameMessage, Grown, Answers, Delivered;
      hide BeginsWith, Nothing, TookFirst;
      var connected := Connected();
      if !connected {
        return Done(false), false, t;
      }
      up := true;
      ghost var t0, s0 := trace, serials;
      var now, _ := Millis();
      t := now;
      var quiet := Clock.Wrap(now - lastInActivity) > keepalive * 1000 || Clock.Wrap(now - lastOutActivity) > keepalive * 1000;
      if quiet {
        if pingOutstanding {
          return Done(false), up, t;
        }
        var o, _ := SendMessage(PingReq, false, false);
        if o != Done(true) {
          return o, up, t;
        }
        lastInActivity := lastOutActivity;
        pingOutstanding := true;
      }
      ghost var t1, s1 := trace, serials;
      var blocked := TakeOne();
      GrownTwice(t0, s0, t1, s1, trace);
      if quiet {
        DeliveredLater(t0, t1, s1, trace);
        BeginsWithLater(t0, t1, s1, trace, PingReq);
      }
      outcome := if blocked then Blocked else Done(true);
    }

    // By the counter at t, more than the keepalive time without a packet in or without one out.
    ghost predicate QuietAt(t: nat)
      reads this
    {
      Clock.Wrap(t - lastInActivity) > keepalive * 1000 || Clock.Wrap(t - lastOutActivity) > keepalive * 1000
    }

    // Lines 225 to 232.
    method TakeOne() returns (blocked: bool)
      requires Valid() && Tied()
      modifies this
      ensures Valid() && Tied() && Grown(old(trace), old(serials), trace)
      ensures if Nothing(old(inbox), inbox) then trace == old(trace) && !blocked
              else TookFirst(old(inbox), old(trace), trace)
      ensures |inbox| <= |old(inbox)|
      ensures |inbox| == |old(inbox)| ==> unchanged(`clock, `lastInActivity, `lastOutActivity, `pingOutstanding)
    {
      blocked := false;
      GrownNot(trace, serials);
      hide Lawful, SerialsBelow, Transmissions, PingOpen, PublishesIn, Callbacks, SameMessage, Grown, Answers, Delivered;
      var there := Available();
      if there {
        ghost var t0, s0 := trace, serials;
        var m := RecvMessage();
        ghost var t1 := trace;
        if m.Some? {
          blocked := ProcessMessage(m.value);
          GrownTwice(t0, s0, t1, s0, trace);
          assert t1 + [Handled(m.value)] == t0 + [Received(m.value), Handled(m.value)];
        }
      }
    }

    method Disconnect()
      requires Valid() && Tied()
      modifies this
      ensures Valid() && Tied() && nextMsgId == old(nextMsgId)
      ensures trace == old(trace) || BeginsWith(old(trace), trace, MqttCodec.Disconnect)
    {
      var up := Connected();
      if !up {
        return;
      }
      FreeToSend(trace, MqttCodec.Disconnect);
      var outcome, _ := SendMessage(MqttCodec.Disconnect, false, false);
      if outcome == Done(true) {
        lastInActivity := lastOutActivity;
      }
    }
  }

  ghost predicate SameCall(t: Trace, i: nat, j: nat)
    requires i < |t| && j < |t|
  {
    t[i].Sent? && t[j].Sent? && t[i].serial == t[j].serial
  }

  // A PINGREQ was sent, and if it has to be, taken by the network.
  ghost predicate PingOut(e: Event, taken: bool)
  {
    e.Sent? && e.message.PingReq? && (taken ==> e.ok)
  }

  // What every run of a client obeys: whatever its methods have been called for, and in whatever order.
  lemma EveryRun(c: PubSubClient)
    requires c.Valid()
    ensures forall serial :: Transmissions(c.trace, serial) <= c.maxRetries + 1
    ensures forall i, j :: 0 <= i < j < |c.trace| && SameCall(c.trace, i, j) ==> c.trace[i].message == c.trace[j].message
    ensures forall i, j :: 0 <= i < j < |c.trace| && PingOut(c.trace[i], true) && PingOut(c.trace[j], false) ==>
                             exists k :: i < k < j && (c.trace[k].Opened? || c.trace[k] == Handled(PingResp))
    ensures forall k :: 0 <= k < |c.trace| && c.trace[k].Sent? && c.trace[k].message.PubComp? ==>
                          Released(c.trace[..k], c.trace[k].message.packetId)
    ensures forall k :: 0 <= k < |c.trace| && c.trace[k].Sent? && c.trace[k].message.PubRel? ==>
                          Recorded(c.trace[..k], c.trace[k].message.packetId)
    ensures PublishesIn(c.trace) == Callbacks(c.trace)
  {
    hide Lawful, Transmissions, Released, Recorded, PublishesIn, Callbacks, SerialsBelow;
    var t, retries := c.trace, c.maxRetries;
    forall serial
      ensures Transmissions(t, serial) <= retries + 1
    {
      AtMostOneTryAndTheRetries(t, retries, serial);
    }
    forall i, j | 0 <= i < j < |t| && SameCall(t, i, j)
      ensures t[i].message == t[j].message
    {
      OneCallOneMessage(t, retries, i, j);
    }
    forall i, j | 0 <= i < j < |t| && PingOut(t[i], true) && PingOut(t[j], false)
      ensures exists k :: i < k < j && (t[k].Opened? || t[k] == Handled(PingResp))
    {
      NoPingWhilePingOpen(t, retries, i, j);
    }
    forall k | 0 <= k < |t| && t[k].Sent? && t[k].message.PubComp?
      ensures Released(t[..k], t[k].message.packetId)
    {
      CompleteOnlyAfterRelease(t, retries, k);
    }
    forall k | 0 <= k < |t| && t[k].Sent? && t[k].message.PubRel?
      ensures Recorded(t[..k], t[k].message.packetId)
    {
      ReleaseOnlyAfterRecord(t, retries, k);
    }
  }
}
