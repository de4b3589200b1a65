/** The setters of Publish in MQTT.h and MQTT.cpp: each masks its own field of the flags byte out and puts a value in. */
module MqttFlags {
  import MqttCodec

  class PublishFlags {
    var flags: bv8
    var needPacketId: bool

    constructor ()
      ensures Qos() == 0 && !Retain() && !Dup() && !needPacketId
    {
      flags, needPacketId := 0, false;
      new;
      Getters(flags);
    }

    // The fields as the getters of MqttCodec read them, on the number that the byte is.
    function Qos(): int
      reads this
    {
      MqttCodec.Qos(flags as int)
    }

    function Retain(): bool
      reads this
    {
      MqttCodec.Retain(flags as int)
    }

    function Dup(): bool
      reads this
    {
      MqttCodec.Dup(flags as int)
    }

    // QoS is cut off at 2. A QoS above 0 asks for a packet id; setting it back to 0 does not take that back.
    method SetQos(q: bv8)
      modifies this
      ensures Qos() == if q > 2 then 2 else q as int
      ensures Retain() == old(Retain()) && Dup() == old(Dup())
      ensures needPacketId == (old(needPacketId) || q > 0)
    {
      var level := if q > 2 then 2 else q;
      Getters(flags);
      flags := flags & !0x06;
      if level != 0 {
        flags := flags | (level << 1);
        needPacketId := true;
      }
      Getters(flags);
      hide MqttCodec.Qos, MqttCodec.Retain, MqttCodec.Dup;
    }

    method UnsetQos()
      modifies this
      ensures Qos() == 0 && Retain() == old(Retain()) && Dup() == old(Dup()) && !needPacketId
    {
      Getters(flags);
      flags := flags & !0x06;
      needPacketId := false;
      Getters(flags);
    }

    method SetRetain(r: bool)
      modifies this`flags
      ensures Retain() == r && Qos() == old(Qos()) && Dup() == old(Dup())
    {
      Getters(flags);
      flags := (flags & !0x01) | (if r then 1 else 0);
      Getters(flags);
    }

    method UnsetRetain()
      modifies this`flags
      ensures !Retain() && Qos() == old(Qos()) && Dup() == old(Dup())
    {
      Getters(flags);
      flags := flags & !0x01;
      Getters(flags);
    }

    method SetDup(d: bool)
      modifies this`flags
      ensures Dup() == d && Qos() == old(Qos()) && Retain() == old(Retain())
    {
      Getters(flags);
      flags := (flags & !0x08) | (if d then 0x08 else 0);
      Getters(flags);
    }

    method UnsetDup()
      modifies this`flags
      ensures !Dup() && Qos() == old(Qos()) && Retain() == old(Retain())
    {
      Getters(flags);
      flags := flags & !0x08;
      Getters(flags);
    }
  }

  // The getters of the source, which shift and mask, read the binary digits of the number.
  lemma Getters(f: bv8)
    ensures MqttCodec.Qos(f as int) == ((f >> 1) & 0x03) as int
    ensures MqttCodec.Retain(f as int) <==> f & 0x01 == 1
    ensures MqttCodec.Dup(f as int) <==> (f >> 3) & 0x01 == 1
  {
    LowBit(f);
    SecondBit(f);
    ThirdBit(f);
    FourthBit(f);
    TwoBits(f);
    TwoDigits(f as int);
  }

  lemma LowBit(f: bv8)
    ensures f as int % 2 == (f & 0x01) as int
  {
  }

  lemma SecondBit(f: bv8)
    ensures f as int / 2 % 2 == ((f >> 1) & 0x01) as int
  {
  }

  lemma ThirdBit(f: bv8)
    ensures f as int / 4 % 2 == ((f >> 2) & 0x01) as int
  {
  }

  lemma FourthBit(f: bv8)
    ensures f as int / 8 % 2 == ((f >> 3) & 0x01) as int
  {
  }

  lemma TwoBits(f: bv8)
    ensures ((f >> 1) & 0x03) as int == ((f >> 1) & 0x01) as int + 2 * ((f >> 2) & 0x01) as int
  {
  }

  lemma TwoDigits(n: nat)
    ensures n / 2 % 4 == n / 2 % 2 + 2 * (n / 4 % 2)
  {
    assert n / 4 == n / 2 / 2;
  }

  // What the wire carries of the flags is their low half, which the getters read.
  lemma LowHalfOnWire(f: bv8)
    ensures (f & 0x0f) as int == f as int % 16
  {
  }
}
