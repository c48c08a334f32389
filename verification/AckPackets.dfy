/** The packets that carry an identifier alone (PUBACK, PUBREC, PUBREL, PUBCOMP, UNSUBACK),
    SUBACK, which adds a list of results, and CONNACK, which carries two bytes. */
module AckPackets {
  import opened Basics
  import opened RemainingLength
  import opened Wire

  datatype Suback = Suback(header: Header, id: Int16, results: Str)

  function SubackBody(m: Suback): seq<Byte> {
    U16(SeqToWire(m.id)) + m.results
  }

  function EncodeSuback(m: Suback): (int, seq<Byte>) {
    Emit(m.header, (2 + |m.results|) % 0x1_0000_0000, SubackBody(m))
  }

  function DecodeSuback(buf: seq<Byte>): Option<Suback> {
    var (h, size, step) :- ReadFixed(buf);
    var t :- ReadU16(buf, step);
    var results :- Payload(buf, step + 2, step + size);
    Some(Suback(h, SeqFromWire(t), results))
  }

  /** A SUBACK that fits comes back from the wire; with no results this is the packet that
      carries an identifier alone. */
  lemma SubackRoundTrip(m: Suback)
    requires 2 + |m.results| <= MAX_LENGTH
    ensures EncodeSuback(m).0 == |EncodeSuback(m).1| > 0
    ensures DecodeSuback(EncodeSuback(m).1) == Some(m)
  {
    var body := SubackBody(m);
    EmitFits(m.header, (2 + |m.results|) % 0x1_0000_0000, body);
    ReadFixedHeader(m.header, |body|, body);
    SubackComesBack(m, FixedHeader(m.header, |body|), FixedHeader(m.header, |body|) + body);
  }

  lemma SubackComesBack(m: Suback, pre: seq<Byte>, buf: seq<Byte>)
    requires buf == pre + SubackBody(m)
    requires ReadFixed(buf) == Some((m.header, |SubackBody(m)|, |pre|))
    ensures DecodeSuback(buf) == Some(m)
  {
    var id := U16(SeqToWire(m.id));
    Associate(pre, id, m.results);
    ReadEncU16(pre, SeqToWire(m.id), m.results);
    ReadPayload(pre + id, m.results);
    SubackAssembled(m, buf, |SubackBody(m)|, |pre|);
  }

  lemma SubackAssembled(m: Suback, buf: seq<Byte>, size: nat, step: nat)
    requires ReadFixed(buf) == Some((m.header, size, step)) && ReadU16(buf, step) == Some(SeqToWire(m.id))
    requires Payload(buf, step + 2, step + size) == Some(m.results)
    ensures DecodeSuback(buf) == Some(m)
  {
  }

  // ----- CONNACK

  datatype Connack = Connack(header: Header, sp: Byte, result: Byte)

  const CONNACK_SIZE := 2

  function ConnackBody(m: Connack): seq<Byte> { [m.sp, m.result] }

  function EncodeConnack(m: Connack): (int, seq<Byte>) {
    Emit(m.header, CONNACK_SIZE, ConnackBody(m))
  }

  /** The return code is one byte; as written, four are read (see module AsWrittenPackets). */
  function DecodeConnack(buf: seq<Byte>): Option<Connack> {
    var (h, _, step) :- ReadFixed(buf);
    if step + 2 <= |buf| then Some(Connack(h, buf[step], buf[step + 1])) else None
  }

  /** Every CONNACK comes back from the wire. */
  lemma ConnackRoundTrip(m: Connack)
    ensures EncodeConnack(m).0 == |EncodeConnack(m).1| > 0
    ensures DecodeConnack(EncodeConnack(m).1) == Some(m)
  {
    var body := ConnackBody(m);
    var pre := FixedHeader(m.header, |body|);
    EmitFits(m.header, CONNACK_SIZE, body);
    ReadFixedHeader(m.header, |body|, body);
    assert (pre + body)[|pre|] == m.sp && (pre + body)[|pre| + 1] == m.result;
  }

  class MqttConnectAck {
    var size: nat
    var header: Header
    var sp: Byte
    var result: Byte

    ghost function Value(): Connack
      reads this
    {
      Connack(header, sp, result)
    }

    /** The constructor sets the size once and for all. */
    constructor (header: Header, status: Byte, ret: Byte)
      ensures Value() == Connack(header, status, ret) && size == CONNACK_SIZE
    {
      size, this.header, sp, result := CONNACK_SIZE, header, status, ret;
    }

    method Encode(buf: seq<Byte>) returns (ret: int, out: seq<Byte>)
      ensures out == buf + Emit(header, size, ConnackBody(Value())).1
      ensures ret == if size > MAX_LENGTH then TOO_LONG else |out|
    {
      var ok;
      ok, out := PushFixedHeader(buf, header, size);
      if !ok { return TOO_LONG, out; }
      out := out + [sp];
      out := out + [result];
      Associate(buf, FixedHeader(header, size), ConnackBody(Value()));
      return |out|, out;
    }

    method Decode(buf: seq<Byte>) returns (ret: Option<int>)
      modifies this
      ensures ret == if DecodeConnack(buf) == None then None else Some(|buf|)
      ensures ret.Some? ==> size == ReadFixed(buf).value.1 && Some(Value()) == DecodeConnack(buf)
    {
      var fixed := ReadFixed(buf);
      if fixed == None { return None; }
      header, size := fixed.value.0, fixed.value.1;
      var step := fixed.value.2;
      if step + 2 > |buf| { return None; }
      sp := buf[step];
      step := step + 1;
      result := buf[step];
      return Some(|buf|);
    }
  }

  // ----- SUBACK and the packets with an identifier alone

  /** The message object; without results it is one of the packets with an identifier
      alone. */
  class MqttSuback {
    var size: nat
    var header: Header
    var id: Int16
    var results: Str

    ghost function Value(): Suback
      reads this
    {
      Suback(header, id, results)
    }

    constructor (header: Header, id: Int16, rets: Str)
      ensures Value() == Suback(header, id, rets)
    {
      size, this.header, this.id, results := 0, header, id, rets;
    }

    /** With the size that the source never sets. */
    method Encode(buf: seq<Byte>) returns (ret: int, out: seq<Byte>)
      modifies this`size
      ensures size == (2 + |results|) % 0x1_0000_0000
      ensures out == buf + EncodeSuback(Value()).1
      ensures ret == if size > MAX_LENGTH then TOO_LONG else |out|
    {
      size := (2 + |results|) % 0x1_0000_0000;
      var ok;
      ok, out := PushFixedHeader(buf, header, size);
      if !ok { return TOO_LONG, out; }
      ghost var head := out;
      out := out + U16(SeqToWire(id));
      out := out + results;
      Associate(head, U16(SeqToWire(id)), results);
      Associate(buf, FixedHeader(header, size), SubackBody(Value()));
      return |out|, out;
    }

    /** None where the C++ would read outside the buffer; the results are appended. */
    method Decode(buf: seq<Byte>) returns (ret: Option<int>)
      modifies this
      ensures ret == if DecodeSuback(buf) == None then None else Some(|buf|)
      ensures ret.Some? ==> size == ReadFixed(buf).value.1
      ensures ret.Some? ==>
        var m := DecodeSuback(buf).value;
        Value() == m.(results := old(results) + m.results)
    {
      var fixed := ReadFixed(buf);
      if fixed == None { return None; }
      header, size := fixed.value.0, fixed.value.1;
      var step := fixed.value.2;
      var end := step + size;
      var t := ReadU16(buf, step);
      if t == None { return None; }
      step := step + 2;
      id := SeqFromWire(t.value);
      if !(step <= end <= |buf|) { return None; }
      results := results + buf[step..end];
      return Some(|buf|);
    }
  }
}
