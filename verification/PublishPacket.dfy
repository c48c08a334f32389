/** PUBLISH (section 3.3 of MQTT 3.1.1, MqttPublish in src/mqtt/Protocol.cpp). */
module PublishPacket {
  import opened Basics
  import opened RemainingLength
  import opened Wire

  datatype Publish = Publish(header: Header, topic: Str, id: Int16, payload: Str)

  /** The size an encoder declares is computed in 32 bits. */
  function PublishSize(m: Publish): nat {
    (2 + |m.topic| + |m.payload| + if m.header.qos > 0 then 2 else 0) % 0x1_0000_0000
  }

  function PublishBody(m: Publish): seq<Byte> {
    EncStr(m.topic) + (if m.header.qos > 0 then U16(SeqToWire(m.id)) else []) + m.payload
  }

  /** The declared size is the number of bytes after the fixed header. */
  lemma PublishSizeIsBody(m: Publish)
    ensures PublishSize(m) == |PublishBody(m)| % 0x1_0000_0000
  {
  }

  function EncodePublish(m: Publish): (int, seq<Byte>) {
    Emit(m.header, PublishSize(m), PublishBody(m))
  }

  /** The identifier is read only if QoS is above 0; otherwise the object keeps the one it
      had. The payload is what the declared size leaves. */
  function DecodePublish(buf: seq<Byte>, id0: Int16): Option<Publish> {
    var (h, size, step) :- ReadFixed(buf);
    var end := step + size;
    var (topic, step) :- ReadStr(buf, step);
    if h.qos > 0 then
      var t :- ReadU16(buf, step);
      var payload :- Payload(buf, step + 2, end);
      Some(Publish(h, topic, SeqFromWire(t), payload))
    else
      var payload :- Payload(buf, step, end);
      Some(Publish(h, topic, id0, payload))
  }

  lemma PublishWithId(m: Publish, id0: Int16, pre: seq<Byte>, buf: seq<Byte>)
    requires |m.topic| < 0x1_0000 && m.header.qos > 0
    requires buf == pre + PublishBody(m)
    requires ReadFixed(buf) == Some((m.header, |buf| - |pre|, |pre|))
    ensures DecodePublish(buf, id0) == Some(m)
  {
    var id := U16(SeqToWire(m.id));
    var named := pre + EncStr(m.topic);
    InThreeParts(pre, EncStr(m.topic), id, m.payload);
    FirstStr(pre, m.topic, id + m.payload, buf);
    ReadEncU16(named, SeqToWire(m.id), m.payload);
    ReadPayload(named + id, m.payload);
    AssembledWithId(m, id0, buf, |buf| - |pre|, |pre|, |named|, |named + id|);
  }

  lemma InThreeParts(pre: seq<Byte>, a: seq<Byte>, b: seq<Byte>, c: seq<Byte>)
    ensures pre + (a + b + c) == pre + a + (b + c) == pre + a + b + c
  {
  }

  lemma AssembledWithId(m: Publish, id0: Int16, buf: seq<Byte>, size: nat, step: nat, next: nat, rest: nat)
    requires m.header.qos > 0 && rest == next + 2 && ReadFixed(buf) == Some((m.header, size, step))
    requires ReadStr(buf, step) == Some((m.topic, next)) && ReadU16(buf, next) == Some(SeqToWire(m.id))
    requires Payload(buf, rest, step + size) == Some(m.payload)
    ensures DecodePublish(buf, id0) == Some(m)
  {
  }

  lemma PublishWithoutId(m: Publish, id0: Int16, pre: seq<Byte>, buf: seq<Byte>)
    requires |m.topic| < 0x1_0000 && m.header.qos == 0
    requires buf == pre + PublishBody(m)
    requires ReadFixed(buf) == Some((m.header, |buf| - |pre|, |pre|))
    ensures DecodePublish(buf, id0) == Some(m.(id := id0))
  {
    var named := pre + EncStr(m.topic);
    InThreeParts(pre, EncStr(m.topic), [], m.payload);
    assert [] + m.payload == m.payload;
    FirstStr(pre, m.topic, m.payload, buf);
    ReadPayload(named, m.payload);
    AssembledWithoutId(m, id0, buf, |buf| - |pre|, |pre|, |named|);
  }

  lemma AssembledWithoutId(m: Publish, id0: Int16, buf: seq<Byte>, size: nat, step: nat, next: nat)
    requires m.header.qos == 0 && ReadFixed(buf) == Some((m.header, size, step))
    requires ReadStr(buf, step) == Some((m.topic, next))
    requires Payload(buf, next, step + size) == Some(m.payload)
    ensures DecodePublish(buf, id0) == Some(m.(id := id0))
  {
  }

  /** A publication that fits comes back from the wire, with its header bits and, if and
      only if QoS is above 0, its identifier, exactly when its topic is shorter than 65536
      bytes. The payload is bounded by the packet size alone. */
  lemma PublishRoundTrip(m: Publish, id0: Int16)
    requires |PublishBody(m)| <= MAX_LENGTH
    ensures EncodePublish(m).0 == |EncodePublish(m).1|
    ensures DecodePublish(EncodePublish(m).1, id0) == Some(m.(id := if m.header.qos > 0 then m.id else id0))
            <==> |m.topic| < 0x1_0000
  {
    var body := PublishBody(m);
    var pre := FixedHeader(m.header, |body|);
    PublishSizeIsBody(m);
    EmitFits(m.header, PublishSize(m), body);
    ReadFixedHeader(m.header, |body|, body);
    if |m.topic| < 0x1_0000 {
      if m.header.qos > 0 {
        PublishWithId(m, id0, pre, pre + body);
      } else {
        PublishWithoutId(m, id0, pre, pre + body);
      }
    } else {
      DecodedTopic(pre + body, id0);
    }
  }

  /** No decoded topic is as long as 65536 bytes. */
  lemma DecodedTopic(buf: seq<Byte>, id0: Int16)
    ensures DecodePublish(buf, id0).Some? ==> |DecodePublish(buf, id0).value.topic| < 0x1_0000
  {
  }

  /** The message object. */
  class MqttPublish {
    var size: nat
    var header: Header
    var topic: Str
    var id: Int16
    var payload: Str

    ghost function Value(): Publish
      reads this
    {
      Publish(header, topic, id, payload)
    }

    /** An object as parseMqtt makes it, apart from the identifier, which C++ leaves as it
        happens to be. */
    constructor (id0: Int16)
      ensures topic == [] && payload == [] && id == id0
    {
      size, header, topic, id, payload := 0, Header(false, 0, false, 0), [], id0, [];
    }

    method Encode(buf: seq<Byte>) returns (ret: int, out: seq<Byte>)
      modifies this`size
      ensures size == PublishSize(Value())
      ensures out == buf + EncodePublish(Value()).1
      ensures ret == if size > MAX_LENGTH then TOO_LONG else |out|
    {
      WrapAdd(2 + |topic| + |payload|, if header.qos > 0 then 2 else 0);
      size := (2 + |topic| + |payload|) % 0x1_0000_0000;
      size := (size + if header.qos > 0 then 2 else 0) % 0x1_0000_0000;
      var ok;
      ok, out := PushFixedHeader(buf, header, size);
      if !ok { return TOO_LONG, out; }
      out := PushBody(out);
      Associate(buf, FixedHeader(header, size), PublishBody(Value()));
      return |out|, out;
    }

    method PushBody(buf: seq<Byte>) returns (out: seq<Byte>)
      ensures out == buf + PublishBody(Value())
    {
      out := buf + EncStr(topic);
      if header.qos > 0 {
        out := out + U16(SeqToWire(id));
      }
      if |payload| > 0 {
        out := out + payload;
      }
    }

    /** None where the C++ would read outside the buffer; topic and payload are appended to
        what the object holds, which in a fresh one is nothing. */
    method Decode(buf: seq<Byte>) returns (ret: Option<int>)
      modifies this
      ensures ret == if DecodePublish(buf, old(id)) == None then None else Some(|buf|)
      ensures ret.Some? ==> size == ReadFixed(buf).value.1
      ensures ret.Some? ==>
        var m := DecodePublish(buf, old(id)).value;
        Value() == m.(topic := old(topic) + m.topic, payload := old(payload) + m.payload)
    {
      var fixed := ReadFixed(buf);
      if fixed == None { return None; }
      header, size := fixed.value.0, fixed.value.1;
      var step := fixed.value.2;
      var end := step + size;
      var name := ReadStr(buf, step);
      if name == None { return None; }
      topic := topic + name.value.0;
      step := name.value.1;
      if header.qos > 0 {
        var t := ReadU16(buf, step);
        if t == None { return None; }
        step := step + 2;
        id := SeqFromWire(t.value);
      }
      if !(step <= end <= |buf|) { return None; }
      payload := payload + buf[step..end];
      step := end;
      return Some(|buf|);
    }
  }
}
