/** The encoders and decoders of src/mqtt/Protocol.cpp exactly as they stand, on a
    little-endian host, and how far they get. */
module AsWrittenPackets {
  import opened Basics
  import opened RemainingLength
  import opened Wire
  import opened ConnectPacket
  import opened PublishPacket
  import opened TopicPackets
  import opened AckPackets

  // ----- byte order

  /** htonl and ntohl. */
  function Swap32(n: Uint32): Uint32 {
    (n % 0x100) * 0x100_0000 + (n / 0x100 % 0x100) * 0x1_0000 + (n / 0x1_0000 % 0x100) * 0x100 + n / 0x100_0000
  }

  /** htons and ntohs. */
  function Swap16(n: Uint16): Uint16 {
    (n % 0x100) * 0x100 + n / 0x100
  }

  /** A number as it lies in memory. */
  function Mem16(n: Uint16): seq<Byte> { [n % 0x100, n / 0x100] }

  /** A length that is swapped twice reaches the wire least significant byte first, which is
      right only if both its bytes are equal. */
  lemma SwappedTwiceIff(n: Uint16)
    ensures Mem16(Swap16(Swap16(n))) == U16(n) <==> n / 0x100 == n % 0x100
  {
    assert Swap16(Swap16(n)) == n;
    assert Mem16(n)[0] == n % 0x100 && U16(n)[0] == n / 0x100;
    assert n / 0x100 == n % 0x100 ==> Mem16(n) == U16(n);
  }

  // ----- encoding

  /** Every encoder swaps the size before it encodes it. */
  function EmitAsWritten(h: Header, size: Uint32, body: seq<Byte>): (int, seq<Byte>) {
    if Swap32(size) > MAX_LENGTH then (TOO_LONG, [PackHeader(h)])
    else
      var out := [PackHeader(h)] + ([0] + Reverse(VarLen(Swap32(size)))) + body;
      (|out|, out)
  }

  /** As written, encoding fails exactly for the sizes whose lowest byte is 16 or more. */
  lemma EmitFailsIff(h: Header, size: Uint32, body: seq<Byte>)
    ensures EmitAsWritten(h, size, body).0 == TOO_LONG <==> size % 0x100 >= 16
  {
  }

  /** What it does encode starts with a length field of 0, so that whoever reads the length
      as the standard says reads the declared size only if it was 0. */
  lemma EmitReadsAsZero(h: Header, size: Uint32, body: seq<Byte>)
    requires size % 0x100 < 16
    ensures ReadFixed(EmitAsWritten(h, size, body).1) == Some((h, 0, 2))
    ensures ReadFixed(EmitAsWritten(h, size, body).1) == Some((h, size, 2)) <==> size == 0
  {
    EmitFailsIff(h, size, body);
    var out := EmitAsWritten(h, size, body).1;
    assert out[0] == PackHeader(h) && out[1] == 0;
    assert Width(out, 1) == Some(1);
    assert out[1..2] == [0];
    HeaderBits(h, 0);
  }

  /** The low half of htonl of the sign-extended identifier. */
  function PublishId(id: Int16): Uint16 {
    Swap32(if id < 0 then id + 0x1_0000_0000 else id) % 0x1_0000
  }

  function PublishBodyAsWritten(m: Publish): seq<Byte> {
    Mem16(Swap16(Swap16(|m.topic| % 0x1_0000))) + m.topic
    + (if m.header.qos > 0 then Mem16(PublishId(m.id)) else []) + m.payload
  }

  function EncodePublishAsWritten(m: Publish): (int, seq<Byte>) {
    EmitAsWritten(m.header, PublishSize(m), PublishBodyAsWritten(m))
  }

  /** As written, a publication's identifier does not reach the wire: all identifiers of
      the same sign are sent alike. The number of bytes is still the declared size. */
  lemma PublishIdIsLost(m: Publish)
    ensures PublishId(m.id) == if m.id < 0 then 0xFFFF else 0
    ensures |PublishBodyAsWritten(m)| == |PublishBody(m)|
  {
    HighHalf(m.id);
  }

  lemma HighHalf(id: Int16)
    ensures PublishId(id) == if id < 0 then 0xFFFF else 0
  {
    var n: int := if id < 0 then id + 0x1_0000_0000 else id;
    assert n / 0x1_0000 == if id < 0 then 0xFFFF else 0;
    assert n / 0x1_0000 % 0x100 == if id < 0 then 0xFF else 0;
    assert n / 0x100_0000 == if id < 0 then 0xFF else 0;
    SwapLow(n);
  }

  lemma SwapLow(n: Uint32)
    ensures Swap32(n) % 0x1_0000 == (n / 0x1_0000 % 0x100) * 0x100 + n / 0x100_0000
  {
    var top, low: int := (n % 0x100) * 0x100 + n / 0x100 % 0x100, (n / 0x1_0000 % 0x100) * 0x100 + n / 0x100_0000;
    assert Swap32(n) == top * 0x1_0000 + low && 0 <= low < 0x1_0000;
  }

  function ConnectBodyAsWritten(m: Connect): seq<Byte> {
    Mem16(Swap16(Swap16(|m.protocol| % 0x1_0000))) + m.protocol + [m.level, PackFlag(m.flag)]
    + Mem16(Swap16(m.keepTime)) + EncStrs(Strings(m))
  }

  function EncodeConnectAsWritten(m: Connect): (int, seq<Byte>) {
    if Check(m) != 0 then (Check(m), []) else EmitAsWritten(m.header, ConnectSize(m), ConnectBodyAsWritten(m))
  }

  /** The sizes that the two topic packets declare: without the QoS byte in one, without
      the length prefix in the other. */
  function TopicsSizeAsWritten(ts: seq<Topic>, withQos: bool): nat {
    if ts == [] then 0
    else TopicsSizeAsWritten(ts[..|ts| - 1], withQos) + |ts[|ts| - 1].0| + if withQos then 2 else 0
  }

  function ListBodyAsWritten(m: TopicList, withQos: bool): seq<Byte> {
    Mem16(Swap16(Swap16(SeqToWire(m.id)))) + EncTopics(m.topics, withQos)
  }

  function EncodeListAsWritten(m: TopicList, withQos: bool): (int, seq<Byte>) {
    if m.topics == [] then (NO_TOPIC, [])
    else EmitAsWritten(m.header, (TopicsSizeAsWritten(m.topics, withQos) + 2) % 0x1_0000_0000,
                       ListBodyAsWritten(m, withQos))
  }

  /** The declared size falls short of the bytes after the fixed header by one for each
      topic of a SUBSCRIBE and by two for each topic of an UNSUBSCRIBE; it is never right. */
  lemma {:induction false} DeclaredSizeFallsShort(ts: seq<Topic>, withQos: bool)
    ensures TopicsSizeAsWritten(ts, withQos) + (if withQos then 1 else 2) * |ts| == |EncTopics(ts, withQos)|
  {
    if ts != [] {
      var init, t := ts[..|ts| - 1], ts[|ts| - 1];
      DeclaredSizeFallsShort(init, withQos);
      TopicsPush(init, t, withQos);
      assert ts == init + [t];
    }
  }

  /** The constructors of MqttPublish fill the header in the order dup, QoS, retain, while
      its fields are in the order Retain, QoS, Dup. */
  function PublishHeaderAsWritten(dup: bool, qos: Bits2, retain: bool): Header {
    Header(dup, qos, retain, 3)
  }

  lemma PublishFlagsSwapped(dup: bool, qos: Bits2, retain: bool)
    ensures var h := UnpackHeader(PackHeader(PublishHeaderAsWritten(dup, qos, retain)));
            (h.dup == dup && h.retain == retain <==> dup == retain) && h.qos == qos && h.command == 3
  {
    HeaderBits(PublishHeaderAsWritten(dup, qos, retain), 0);
  }

  // ----- decoding

  /** std::copy from begin + first to begin + last; None if that is not a range of the
      buffer, where the behaviour is undefined. */
  function Range(buf: seq<Byte>, first: nat, last: nat): Option<seq<Byte>> {
    if first <= last <= |buf| then Some(buf[first..last]) else None
  }

  /** The length vector starts with zeros, and its last byte is missing. */
  function FixedAsWritten(buf: seq<Byte>): Option<(Header, Uint32, nat)> {
    var ll :- Width(buf, 1);
    var field :- Range(buf, 1, ll);
    Some((UnpackHeader(buf[0]), Swap32(DecLenSpec(Zeros(ll) + field) % 0x1_0000_0000), 1 + ll))
  }

  /** Two bytes into t: the end of the range is begin + 2 whatever the position. An empty
      range leaves t as it was. */
  function TakeU16(buf: seq<Byte>, step: nat, t: Uint16): Option<Uint16> {
    var bytes :- Range(buf, step, 2);
    var low: int := if |bytes| > 0 then bytes[0] else t % 0x100;
    var high: int := if |bytes| > 1 then bytes[1] else t / 0x100;
    Some(low + 0x100 * high)
  }

  /** A string: its length, and the range that ends at begin + length. */
  function TakeStr(buf: seq<Byte>, step: nat, t: Uint16): Option<(Str, nat, Uint16)> {
    var t :- TakeU16(buf, step, t);
    var t := Swap16(t);
    var s :- Range(buf, step + 2, t);
    Some((s, step + 2 + t, t))
  }

  function DecodeConnectAsWritten(buf: seq<Byte>): Option<Connect> {
    var (h, _, step) :- FixedAsWritten(buf);
    var (protocol, step, t) :- TakeStr(buf, step, 0);
    BehindProtocol(buf, h, protocol, step, t)
  }

  function BehindProtocol(buf: seq<Byte>, h: Header, protocol: Str, step: nat, t: Uint16): Option<Connect> {
    if step + 2 > |buf| then None
    else
      var level, flag := buf[step], UnpackFlag(buf[step + 1]);
      var t :- TakeU16(buf, step + 2, t);
      var keep := Swap16(t);
      var (cid, step, t) :- TakeStr(buf, step + 4, t);
      var (willTopic, step, t) :- TakeStr(buf, step, t);
      var (willMsg, step, t) :- TakeStr(buf, step, t);
      var (user, step, t) :- TakeStr(buf, step, t);
      var (passwd, _, _) :- TakeStr(buf, step, t);
      Some(Connect(h, protocol, level, flag, keep, cid, willTopic, willMsg, user, passwd))
  }

  function DecodePublishAsWritten(buf: seq<Byte>, id0: Int16): Option<Publish> {
    var (h, size, step) :- FixedAsWritten(buf);
    var (topic, step, t) :- TakeStr(buf, step, 0);
    var (id, step) :- if h.qos > 0 then (var t :- TakeU16(buf, step, t); Some((SeqFromWire(Swap16(t)), step + 2)))
                      else Some((id0, step));
    var t := (size - (step - 1)) % 0x1_0000;
    var payload :- Range(buf, step, t);
    Some(Publish(h, topic, id, payload))
  }

  function TopicsAsWritten(buf: seq<Byte>, size: Uint32, step: nat, t: Uint16, withQos: bool): Option<seq<Topic>>
    decreases size + 1 - step
  {
    if size + 1 <= step then Some([])
    else
      var t :- TakeU16(buf, step, t);
      var topic :- Range(buf, step + 2, Swap16(t));
      var step := step + 4;
      if withQos && step >= |buf| then None
      else
        var more :- TopicsAsWritten(buf, size, step + Bit(withQos), t, withQos);
        Some([(topic, if withQos then buf[step] else 0)] + more)
  }

  function DecodeListAsWritten(buf: seq<Byte>, withQos: bool): Option<TopicList> {
    var (h, size, step) :- FixedAsWritten(buf);
    var t :- TakeU16(buf, step, 0);
    var topics :- TopicsAsWritten(buf, size, step + 2, t, withQos);
    Some(TopicList(h, SeqFromWire(Swap16(t)), topics))
  }

  function DecodeSubackAsWritten(buf: seq<Byte>): Option<Suback> {
    var (h, size, step) :- FixedAsWritten(buf);
    var t :- TakeU16(buf, step, 0);
    var results :- Range(buf, step + 2, Remainder(size, step + 2));
    Some(Suback(h, SeqFromWire(Swap16(t)), results))
  }

  /** What SUBACK takes for the end of its results, in an unsigned sixteen-bit variable. */
  function Remainder(size: Uint32, step: nat): Uint16 {
    (size + 1 - step) % 0x1_0000
  }

  /** CONNACK: the return code is read as the four bytes of an enumeration. */
  function DecodeConnackAsWritten(buf: seq<Byte>): Option<(Header, Byte, nat)> {
    var (h, _, step) :- FixedAsWritten(buf);
    if step + 5 > |buf| then None
    else Some((h, buf[step], FourBytes(buf[step + 1], buf[step + 2], buf[step + 3], buf[step + 4])))
  }

  function FourBytes(b0: nat, b1: nat, b2: nat, b3: nat): nat {
    b0 + 0x100 * b1 + 0x1_0000 * b2 + 0x100_0000 * b3
  }

  /** A packet with an identifier alone. */
  function DecodeAckAsWritten(buf: seq<Byte>): Option<(Header, Int16)> {
    var (h, _, step) :- FixedAsWritten(buf);
    var t :- TakeU16(buf, step, 0);
    Some((h, SeqFromWire(Swap16(t))))
  }

  /** The declared size is always decoded as 0. */
  lemma SizeIsZero(buf: seq<Byte>)
    ensures FixedAsWritten(buf).Some? ==>
      FixedAsWritten(buf).value.1 == 0 && Width(buf, 1) == Some(FixedAsWritten(buf).value.2 - 1)
      && FixedAsWritten(buf).value.0 == UnpackHeader(buf[0])
    ensures Width(buf, 1) == Some(1) ==> FixedAsWritten(buf) == Some((UnpackHeader(buf[0]), 0, 2))
  {
    var ll := Width(buf, 1);
    if ll.Some? && Range(buf, 1, ll.value).Some? {
      assert (Zeros(ll.value) + Range(buf, 1, ll.value).value)[0] == 0;
      assert DecLenSpec(Zeros(ll.value) + Range(buf, 1, ll.value).value) == 0;
    }
  }

  /** As written, CONNECT and PUBLISH are never decoded: whatever the buffer holds, the
      copy of the protocol name or of the topic ends before it starts. */
  lemma StringsAreNeverDecoded(buf: seq<Byte>, id0: Int16)
    ensures DecodeConnectAsWritten(buf) == None
    ensures DecodePublishAsWritten(buf, id0) == None
  {
    var f := FixedAsWritten(buf);
    SizeIsZero(buf);
    if f.Some? {
      assert f.value.2 >= 2;
      assert TakeStr(buf, f.value.2, 0) == None;
    }
  }

  /** As written, the packets that start with an identifier are decoded exactly when their
      length field is one byte wide, and then always to identifier 0. */
  lemma IdentifierIsLost(buf: seq<Byte>)
    ensures DecodeAckAsWritten(buf) == if Width(buf, 1) == Some(1) then Some((UnpackHeader(buf[0]), 0)) else None
    ensures FixedAsWritten(buf).Some? && TakeU16(buf, FixedAsWritten(buf).value.2, 0).Some? ==>
              FixedAsWritten(buf).value.2 == 2 && TakeU16(buf, 2, 0) == Some(0)
  {
    SizeIsZero(buf);
    var f := FixedAsWritten(buf);
    if f.Some? && f.value.2 == 2 {
      assert buf[2..2] == [];
    }
  }

  /** Then SUBSCRIBE and UNSUBSCRIBE yield no topic at all. */
  lemma TopicsAreLost(buf: seq<Byte>, withQos: bool)
    ensures DecodeListAsWritten(buf, withQos)
         == if Width(buf, 1) == Some(1) then Some(TopicList(UnpackHeader(buf[0]), 0, [])) else None
  {
    SizeIsZero(buf);
    IdentifierIsLost(buf);
  }

  /** And SUBACK takes its results from the bytes 4 to 65533 of the buffer, whatever it
      holds. */
  lemma ResultsRunAway(buf: seq<Byte>)
    ensures DecodeSubackAsWritten(buf)
         == if Width(buf, 1) == Some(1) && |buf| >= 0xFFFD then Some(Suback(UnpackHeader(buf[0]), 0, buf[4..0xFFFD]))
            else None
  {
    SizeIsZero(buf);
    IdentifierIsLost(buf);
    assert Remainder(0, 4) == 0xFFFD;
  }

  /** Hence no CONNECT, no PUBLISH and no non-empty topic list survives the way there and back
      as written. */
  lemma AsWrittenNothingComesBack(c: Connect, p: Publish, id0: Int16, l: TopicList, withQos: bool)
    ensures DecodeConnectAsWritten(EncodeConnectAsWritten(c).1) != Some(c)
    ensures DecodePublishAsWritten(EncodePublishAsWritten(p).1, id0) == None
    ensures l.topics != [] ==> DecodeListAsWritten(EncodeListAsWritten(l, withQos).1, withQos) != Some(l)
  {
    StringsAreNeverDecoded(EncodeConnectAsWritten(c).1, id0);
    StringsAreNeverDecoded(EncodePublishAsWritten(p).1, id0);
    TopicsAreLost(EncodeListAsWritten(l, withQos).1, withQos);
  }

  /** SUBACK as written: the size is whatever the object holds, since nothing sets it. */
  function EncodeSubackAsWritten(m: Suback, size: Uint32): (int, seq<Byte>) {
    EmitAsWritten(m.header, size, Mem16(Swap16(SeqToWire(m.id))) + m.results)
  }

  /** The length field as emitted, without its leading zero, and identifier 0, but for the
      first two bytes: what lies between the place where the decoder starts and the results. */
  function Leading(size: Uint32): (p: seq<Byte>)
    ensures p != []
  {
    ReverseLength(VarLen(Swap32(size)));
    (Reverse(VarLen(Swap32(size))) + [0, 0])[2..]
  }

  lemma {:induction false} ReverseLength(s: seq<Byte>)
    ensures |Reverse(s)| == |s|
  {
    if s != [] {
      ReverseLength(s[1..]);
    }
  }

  /** How many results the decoder takes. */
  const RESULTS := 0xFFFD - 4

  /** The bytes p over and over. */
  ghost predicate Repeats(r: seq<Byte>, p: seq<Byte>)
    requires p != []
  {
    forall i :: 0 <= i < |r| ==> r[i] == p[i % |p|]
  }

  lemma Times(x: int, n: nat)
    requires n > 0
    ensures x >= 1 ==> x * n >= n
    ensures x <= -1 ==> x * n + n <= 0
  {
  }

  lemma ModuloIs(a: nat, n: nat, q: int, m: nat)
    requires n > 0 && m < n && a == q * n + m
    ensures a % n == m
  {
    var d := q - a / n;
    assert a == (a / n) * n + a % n;
    assert d * n == a % n - m;
    Times(d, n);
  }

  lemma Cycle(i: nat, n: nat)
    requires n > 0
    ensures i < n ==> i % n == i
    ensures i >= n ==> i % n == (i - n) % n
  {
    if i < n {
      ModuloIs(i, n, 0, i);
    } else {
      var q := (i - n) / n;
      assert i - n == q * n + (i - n) % n;
      assert (q + 1) * n == q * n + n;
      ModuloIs(i, n, q + 1, (i - n) % n);
    }
  }

  lemma {:induction false} RepeatsUpTo(r: seq<Byte>, p: seq<Byte>, i: nat)
    requires p != [] && r == (p + r)[..|r|] && i < |r|
    ensures r[i] == p[i % |p|]
  {
    Cycle(i, |p|);
    assert r[i] == (p + r)[i];
    if i >= |p| {
      RepeatsUpTo(r, p, i - |p|);
    }
  }

  /** A sequence is the front of itself behind p exactly when it repeats p. */
  lemma RepeatsIff(r: seq<Byte>, p: seq<Byte>)
    requires p != []
    ensures r == (p + r)[..|r|] <==> Repeats(r, p)
  {
    if r == (p + r)[..|r|] {
      forall i | 0 <= i < |r| ensures r[i] == p[i % |p|] {
        RepeatsUpTo(r, p, i);
      }
    } else if Repeats(r, p) {
      forall i | 0 <= i < |r| ensures r[i] == (p + r)[i] {
        Cycle(i, |p|);
      }
    }
  }

  /** As written, of a SUBACK the decoder takes the bytes behind the first two of the length
      field and the identifier, with the results after them. */
  lemma SubackDecoded(m: Suback, size: Uint32)
    requires m.id == 0 && size % 0x100 < 16
    ensures var rest := Leading(size) + m.results;
            DecodeSubackAsWritten(EncodeSubackAsWritten(m, size).1) ==
            if |rest| >= RESULTS then Some(Suback(m.header, 0, rest[..RESULTS])) else None
  {
    var field, id := Reverse(VarLen(Swap32(size))), Mem16(Swap16(SeqToWire(m.id)));
    var out := EncodeSubackAsWritten(m, size).1;
    EmitFailsIff(m.header, size, id + m.results);
    ReverseLength(VarLen(Swap32(size)));
    assert id == [0, 0];
    SubackBytes(PackHeader(m.header), field, m.results, out);
    assert out[0] == PackHeader(m.header) && out[1] == 0;
    assert Width(out, 1) == Some(1);
    HeaderBits(m.header, 0);
    ResultsRunAway(out);
  }

  lemma SubackBytes(h: Byte, field: seq<Byte>, results: seq<Byte>, out: seq<Byte>)
    requires field != [] && out == [h] + ([0] + field) + ([0, 0] + results)
    ensures var rest := (field + [0, 0])[2..] + results;
            |out| == 4 + |rest| && out[4..] == rest && forall n :: 0 <= n <= |rest| ==> out[4..4 + n] == rest[..n]
  {
    assert out == [h, 0] + (field + [0, 0]) + results;
    var rest := (field + [0, 0])[2..] + results;
    assert out[4..] == rest;
    forall n | 0 <= n <= |rest| ensures out[4..4 + n] == rest[..n] {
      assert out[4..][..n] == out[4..4 + n];
    }
  }

  /** As written, a SUBACK comes back exactly when its size can be encoded, its identifier is
      0, and its results are 65529 bytes that repeat the end of the length field and the
      identifier over and over. */
  lemma SubackComesBackIff(m: Suback, size: Uint32)
    ensures DecodeSubackAsWritten(EncodeSubackAsWritten(m, size).1) == Some(m) <==>
              size % 0x100 < 16 && m.id == 0 && |m.results| == RESULTS && Repeats(m.results, Leading(size))
  {
    var out := EncodeSubackAsWritten(m, size).1;
    ResultsRunAway(out);
    EmitFailsIff(m.header, size, Mem16(Swap16(SeqToWire(m.id))) + m.results);
    if size % 0x100 < 16 && m.id == 0 {
      SubackDecoded(m, size);
      RepeatsIff(m.results, Leading(size));
    } else if size % 0x100 >= 16 {
      assert out == [PackHeader(m.header)];
    }
  }

  /** For one, with size 0 and nothing but zeros. */
  lemma ZerosComeBack(h: Header)
    ensures var m := Suback(h, 0, Zeros(RESULTS));
            DecodeSubackAsWritten(EncodeSubackAsWritten(m, 0).1) == Some(m)
  {
    var m := Suback(h, 0, Zeros(RESULTS));
    assert Swap32(0) == 0;
    LastDigit(0, 0, 0);
    assert Leading(0) == [0];
    forall i | 0 <= i < RESULTS ensures m.results[i] == [0][i % 1] { }
    SubackComesBackIff(m, 0);
  }

  lemma AckComesBackIff(h: Header, id: Int16)
    ensures DecodeAckAsWritten(EmitAsWritten(h, 2, Mem16(Swap16(SeqToWire(id)))).1) == Some((h, id)) <==> id == 0
  {
    var body := Mem16(Swap16(SeqToWire(id)));
    var out := EmitAsWritten(h, 2, body).1;
    EmitFailsIff(h, 2, body);
    assert out[0] == PackHeader(h) && out[1] == 0;
    assert Width(out, 1) == Some(1);
    IdentifierIsLost(out);
    HeaderBits(h, 0);
  }

  /** As written, the decoder reads beyond a CONNACK as the standard has it, and of one that
      the encoder makes as written it takes part of the length field for its content. */
  lemma ConnackNeverComesBack(m: Connack)
    ensures DecodeConnackAsWritten(EncodeConnack(m).1) == None
    ensures var out := EmitAsWritten(m.header, CONNACK_SIZE, ConnackBody(m)).1;
            var d := DecodeConnackAsWritten(out);
            d.Some? && d.value.2 != m.result
  {
    SizeIsZero(EncodeConnack(m).1);
    ConnackAsWritten(m);
    var out := EmitAsWritten(m.header, CONNACK_SIZE, ConnackBody(m)).1;
    assert Width(out, 1) == Some(1);
    SizeIsZero(out);
  }

  lemma ConnackAsWritten(m: Connack)
    ensures EmitAsWritten(m.header, CONNACK_SIZE, ConnackBody(m)).1
         == [PackHeader(m.header), 0, 16, 128, 128, 128, m.sp, m.result]
  {
    var field := Reverse(VarLen(SWAPPED_TWO));
    SwappedTwoEncoded(SWAPPED_TWO);
    Emitted(m.header, CONNACK_SIZE, ConnackBody(m), SWAPPED_TWO);
    OneAfterTheOther(PackHeader(m.header), field, ConnackBody(m));
  }

  lemma Emitted(h: Header, size: Uint32, body: seq<Byte>, swapped: nat)
    requires Swap32(size) == swapped <= MAX_LENGTH
    ensures EmitAsWritten(h, size, body).1 == [PackHeader(h)] + ([0] + Reverse(VarLen(swapped))) + body
  {
  }

  const SWAPPED_TWO := 0x200_0000

  lemma SwappedTwoEncoded(n: nat)
    requires n == SWAPPED_TWO
    ensures Reverse(VarLen(n)) == [16, 128, 128, 128]
  {
    Digits(n);
  }

  lemma OneAfterTheOther(h: Byte, field: seq<Byte>, body: seq<Byte>)
    requires |field| == 4 && |body| == 2
    ensures [h] + ([0] + field) + body == [h, 0, field[0], field[1], field[2], field[3], body[0], body[1]]
  {
  }
}
