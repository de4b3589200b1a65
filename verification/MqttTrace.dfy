/** What a run of PubSubClient leaves behind, and the laws every run obeys. */
module MqttTrace {
  import opened Basics
  import opened MqttCodec

  // Sent carries the number of the _send_message call that transmits, and whether the network took it all.
  // Handled: _process_message was given the message; for a PUBLISH this is the call of the callback.
  datatype Event =
    | Opened
    | Sent(serial: nat, message: Message, ok: bool)
    | Received(message: Message)
    | Handled(message: Message)

  type Trace = seq<Event>

  function PacketId(m: Message): uint16
  {
    if m.Connect? || m.ConnAck? || m.PingReq? || m.PingResp? || m.Disconnect? then 0 else m.packetId
  }

  // Does m answer a message that waits for the given type and id? The id 0 stands for any.
  predicate Answers(m: Message, code: byte, id: uint16)
  {
    TypeCode(m) == code && (id == 0 || PacketId(m) == id)
  }

  predicate IsPublish(m: Message) { TypeCode(m) == 3 }

  // ---- the laws --------------------------------------------------------------------------------------------------

  // Is a PINGREQ on its way that nothing has answered?
  ghost predicate PingOpen(t: Trace)
  {
    t != [] &&
    match t[|t| - 1]
    case Opened => false
    case Handled(PingResp) => false
    case Sent(_, PingReq, true) => true
    case _ => PingOpen(t[..|t| - 1])
  }

  ghost function Transmissions(t: Trace, serial: nat): nat
  {
    if t == [] then 0
    else Transmissions(t[..|t| - 1], serial) + if t[|t| - 1].Sent? && t[|t| - 1].serial == serial then 1 else 0
  }

  // The PUBLISH messages received, and those given to the callback, in order.
  ghost function PublishesIn(t: Trace): seq<Message>
  {
    if t == [] then []
    else PublishesIn(t[..|t| - 1]) + if t[|t| - 1].Received? then PublishOf(t[|t| - 1].message) else []
  }

  ghost function Callbacks(t: Trace): seq<Message>
  {
    if t == [] then []
    else Callbacks(t[..|t| - 1]) + if t[|t| - 1].Handled? then PublishOf(t[|t| - 1].message) else []
  }

  ghost function PublishOf(m: Message): seq<Message>
  {
    if m.Publish? || m.PublishFrom? || m.PublishStream? then [m] else []
  }

  // Delivery to this client: the PUBREC has gone out and its PUBREL has come.
  ghost predicate Released(t: Trace, id: uint16)
  {
    exists i, j :: 0 <= i < j < |t| && SentRec(t[i], id) && GotRel(t[j], id)
  }

  ghost predicate SentRec(e: Event, id: uint16)
  {
    e.Sent? && e.ok && e.message == PubRec(id)
  }

  // The id 0 stands for any.
  ghost predicate GotRel(e: Event, id: uint16)
  {
    e.Received? && e.message.PubRel? && (id == 0 || e.message.packetId == id)
  }

  // Delivery from this client: the PUBLISH has gone out with QoS 2 and its PUBREC has come.
  ghost predicate Recorded(t: Trace, id: uint16)
  {
    exists i, j :: 0 <= i < j < |t| && SentPublish(t[i], id) && GotRec(t[j], id)
  }

  ghost predicate GotRec(e: Event, id: uint16)
  {
    e.Received? && e.message.PubRec? && (id == 0 || e.message.packetId == id)
  }

  ghost predicate SentPublish(e: Event, id: uint16)
  {
    && e.Sent? && e.ok && (e.message.Publish? || e.message.PublishFrom?)
    && e.message.flags / 2 % 4 == 2 && e.message.packetId == id
  }

  ghost predicate MaySend(t: Trace, m: Message)
  {
    && (m.PingReq? ==> !PingOpen(t))
    && (m.PubComp? ==> Released(t, m.packetId))
    && (m.PubRel? ==> Recorded(t, m.packetId))
  }

  ghost predicate SameMessage(t: Trace, serial: nat, m: Message)
  {
    forall i :: 0 <= i < |t| && t[i].Sent? && t[i].serial == serial ==> t[i].message == m
  }

  // Every transmission was allowed at its time, repeats the message of its call, and is among the first of its call.
  ghost predicate Lawful(t: Trace, retries: nat)
  {
    t == [] || (
      var before, e := t[..|t| - 1], t[|t| - 1];
      && Lawful(before, retries)
      && (e.Sent? ==>
            && MaySend(before, e.message) && SameMessage(before, e.serial, e.message)
            && Transmissions(before, e.serial) <= retries))
  }

  // ---- what the laws mean ----------------------------------------------------------------------------------------

  lemma {:induction false} AtMostOneTryAndTheRetries(t: Trace, retries: nat, serial: nat)
    requires Lawful(t, retries)
    ensures Transmissions(t, serial) <= retries + 1
  {
    if t != [] {
      AtMostOneTryAndTheRetries(t[..|t| - 1], retries, serial);
    }
  }

  lemma {:induction false} OneCallOneMessage(t: Trace, retries: nat, i: nat, j: nat)
    requires Lawful(t, retries) && i < j < |t| && t[i].Sent? && t[j].Sent? && t[i].serial == t[j].serial
    ensures t[i].message == t[j].message
  {
    if j < |t| - 1 {
      OneCallOneMessage(t[..|t| - 1], retries, i, j);
    } else {
      assert t[..|t| - 1][i] == t[i];
    }
  }

  lemma {:induction false} NoPingWhilePingOpen(t: Trace, retries: nat, i: nat, j: nat)
    requires Lawful(t, retries) && i < j < |t|
    requires t[i].Sent? && t[i].message.PingReq? && t[i].ok && t[j].Sent? && t[j].message.PingReq?
    ensures exists k :: i < k < j && (t[k].Opened? || t[k] == Handled(PingResp))
  {
    if j < |t| - 1 {
      NoPingWhilePingOpen(t[..|t| - 1], retries, i, j);
      var k :| i < k < j && (t[..|t| - 1][k].Opened? || t[..|t| - 1][k] == Handled(PingResp));
      assert t[k] == t[..|t| - 1][k];
    } else {
      var k := PingClosed(t[..j], i);
      assert t[k] == t[..j][k];
    }
  }

  lemma {:induction false} PingClosed(t: Trace, i: nat) returns (k: nat)
    requires i < |t| && t[i].Sent? && t[i].message.PingReq? && t[i].ok && !PingOpen(t)
    ensures i < k < |t| && (t[k].Opened? || t[k] == Handled(PingResp))
  {
    k := |t| - 1;
    if !(t[k].Opened? || t[k] == Handled(PingResp)) {
      k := PingClosed(t[..|t| - 1], i);
    }
  }

  lemma {:induction false} CompleteOnlyAfterRelease(t: Trace, retries: nat, k: nat)
    requires Lawful(t, retries) && k < |t| && t[k].Sent? && t[k].message.PubComp?
    ensures Released(t[..k], t[k].message.packetId)
  {
    if k < |t| - 1 {
      CompleteOnlyAfterRelease(t[..|t| - 1], retries, k);
      assert t[..|t| - 1][..k] == t[..k];
    }
  }

  lemma {:induction false} ReleaseOnlyAfterRecord(t: Trace, retries: nat, k: nat)
    requires Lawful(t, retries) && k < |t| && t[k].Sent? && t[k].message.PubRel?
    ensures Recorded(t[..k], t[k].message.packetId)
  {
    if k < |t| - 1 {
      ReleaseOnlyAfterRecord(t[..|t| - 1], retries, k);
      assert t[..|t| - 1][..k] == t[..k];
    }
  }

  // ---- growing traces --------------------------------------------------------------------------------------------

  lemma Appended(t: Trace, e: Event, retries: nat)
    ensures Transmissions(t + [e], if e.Sent? then e.serial else 0)
         == Transmissions(t, if e.Sent? then e.serial else 0) + if e.Sent? then 1 else 0
    ensures PublishesIn(t + [e]) == PublishesIn(t) + if e.Received? then PublishOf(e.message) else []
    ensures Callbacks(t + [e]) == Callbacks(t) + if e.Handled? then PublishOf(e.message) else []
    ensures PingOpen(t + [e]) == if e.Opened? || e == Handled(PingResp) then false
                                 else if e.Sent? && e.message.PingReq? && e.ok then true else PingOpen(t)
    ensures Lawful(t, retries)
            && (e.Sent? ==> MaySend(t, e.message) && SameMessage(t, e.serial, e.message)
                            && Transmissions(t, e.serial) <= retries)
            ==> Lawful(t + [e], retries)
  {
    assert (t + [e])[..|t|] == t;
  }

  // after is what a call made of before, when the calls from serial on were still to come.
  ghost predicate Grown(before: Trace, serial: nat, after: Trace)
  {
    before <= after && forall i :: |before| <= i < |after| && after[i].Sent? ==> serial <= after[i].serial
  }

  ghost predicate SerialsBelow(t: Trace, serial: nat)
  {
    forall i :: 0 <= i < |t| && t[i].Sent? ==> t[i].serial < serial
  }

  lemma GrownNot(t: Trace, s: nat)
    ensures Grown(t, s, t)
  {
  }

  lemma AppendSent(t: Trace, serials: nat, retries: nat, serial: nat, sent: Message, ok: bool)
    requires Lawful(t, retries) && SerialsBelow(t, serials) && serial < serials
    requires MaySend(t, sent) && SameMessage(t, serial, sent) && Transmissions(t, serial) <= retries
    ensures var u := t + [Sent(serial, sent, ok)];
            && Lawful(u, retries) && SerialsBelow(u, serials) && Grown(t, serial, u)
            && PublishesIn(u) == PublishesIn(t) && Callbacks(u) == Callbacks(t)
            && Transmissions(u, serial) == Transmissions(t, serial) + 1 && SameMessage(u, serial, sent)
            && PingOpen(u) == ((sent.PingReq? && ok) || PingOpen(t))
            && ((sent.PingReq? && ok) || MaySend(u, sent))
  {
    var e := Sent(serial, sent, ok);
    Appended(t, e, retries);
    if !sent.PingReq? {
      GrownKeepsPermission(t, serial, t + [e], sent);
    }
    hide Lawful, Transmissions, PingOpen, PublishesIn, Callbacks, Released, Recorded;
  }

  lemma AppendOther(t: Trace, serials: nat, serial: nat, retries: nat, e: Event)
    requires Lawful(t, retries) && SerialsBelow(t, serials) && !e.Sent?
    ensures Lawful(t + [e], retries) && SerialsBelow(t + [e], serials) && Grown(t, serial, t + [e])
    ensures PublishesIn(t + [e]) == PublishesIn(t) + if e.Received? then PublishOf(e.message) else []
    ensures Callbacks(t + [e]) == Callbacks(t) + if e.Handled? then PublishOf(e.message) else []
    ensures PingOpen(t + [e]) == (!(e.Opened? || e == Handled(PingResp)) && PingOpen(t))
  {
    Appended(t, e, retries);
    hide Lawful, Transmissions, PingOpen, PublishesIn, Callbacks, MaySend;
  }

  lemma AppendOpened(t: Trace, serials: nat, retries: nat)
    requires Lawful(t, retries) && SerialsBelow(t, serials)
    ensures var u := t + [Opened];
            && Lawful(u, retries) && SerialsBelow(u, serials) && !PingOpen(u)
            && PublishesIn(u) == PublishesIn(t) && Callbacks(u) == Callbacks(t)
  {
    AppendOther(t, serials, serials, retries, Opened);
    hide Lawful, SerialsBelow, PingOpen, PublishesIn, Callbacks;
  }

  lemma GrownTwice(a: Trace, s: nat, b: Trace, u: nat, c: Trace)
    requires Grown(a, s, b) && s <= u && Grown(b, u, c)
    ensures Grown(a, s, c)
  {
  }

  lemma {:induction false} GrownKeepsCount(a: Trace, s: nat, b: Trace, serial: nat)
    requires Grown(a, s, b) && serial < s
    ensures Transmissions(b, serial) == Transmissions(a, serial)
    decreases |b|
  {
    if |b| > |a| {
      GrownKeepsCount(a, s, b[..|b| - 1], serial);
    } else {
      assert a == b;
    }
  }

  lemma {:induction false} FreshSerial(t: Trace, serial: nat)
    requires SerialsBelow(t, serial)
    ensures Transmissions(t, serial) == 0
  {
    if t != [] {
      FreshSerial(t[..|t| - 1], serial);
    }
  }

  lemma GrownKeepsPermission(a: Trace, s: nat, b: Trace, m: Message)
    requires Grown(a, s, b) && MaySend(a, m) && !m.PingReq?
    ensures MaySend(b, m)
  {
    if m.PubComp? {
      var i, j :| 0 <= i < j < |a| && SentRec(a[i], m.packetId) && GotRel(a[j], m.packetId);
      assert b[i] == a[i] && b[j] == a[j];
    }
    if m.PubRel? {
      var i, j :| 0 <= i < j < |a| && SentPublish(a[i], m.packetId) && GotRec(a[j], m.packetId);
      assert b[i] == a[i] && b[j] == a[j];
    }
  }
}
