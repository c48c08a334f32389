/** From messages to bytes and back: what one end encodes and sends is what the reader and
    the decoders of the other end make of the byte stream. */
module MessageStream {
  import opened Basics
  import opened RemainingLength
  import opened Wire
  import opened ConnectPacket
  import opened PublishPacket
  import opened TopicPackets
  import opened AckPackets
  import opened Framing
  import opened SessionReader

  /** The commands of the header (enum COMMAND of src/mqtt/Protocol.hpp). */
  const CONNECT := 1
  const CONNACK := 2
  const PUBLISH := 3
  const PUBACK := 4
  const PUBREC := 5
  const PUBREL := 6
  const PUBCOMP := 7
  const SUBSCRIBE := 8
  const SUBACK := 9
  const UNSUBSCRIBE := 10
  const UNSUBACK := 11
  const PINGREQ := 12
  const PINGRESP := 13
  const DISCONNECT := 14

  datatype Msg =
    | ConnectMsg(connect: Connect)
    | ConnackMsg(connack: Connack)
    | PublishMsg(publish: Publish)
    | ListMsg(list: TopicList)
    | SubackMsg(suback: Suback)
    | AckMsg(header: Header, id: Int16)
    | EmptyMsg(header: Header)

  function HeaderOf(m: Msg): Header {
    match m
    case ConnectMsg(c) => c.header
    case ConnackMsg(a) => a.header
    case PublishMsg(p) => p.header
    case ListMsg(l) => l.header
    case SubackMsg(s) => s.header
    case AckMsg(h, _) => h
    case EmptyMsg(h) => h
  }

  predicate CarriesIdAlone(command: Bits4) {
    command == PUBACK || command == PUBREC || command == PUBREL || command == PUBCOMP || command == UNSUBACK
  }

  predicate CarriesNothing(command: Bits4) {
    command == PINGREQ || command == PINGRESP || command == DISCONNECT
  }

  /** SUBSCRIBE has a QoS byte behind every topic, UNSUBSCRIBE has none. */
  predicate WithQos(l: TopicList) { l.header.command == SUBSCRIBE }

  /** The bytes behind the fixed header. */
  function Body(m: Msg): seq<Byte> {
    match m
    case ConnectMsg(c) => ConnectBody(c)
    case ConnackMsg(a) => ConnackBody(a)
    case PublishMsg(p) => PublishBody(p)
    case ListMsg(l) => ListBody(l, WithQos(l))
    case SubackMsg(s) => SubackBody(s)
    case AckMsg(_, id) => U16(SeqToWire(id))
    case EmptyMsg(_) => []
  }

  function Encode(m: Msg): (int, seq<Byte>) {
    match m
    case ConnectMsg(c) => EncodeConnect(c)
    case ConnackMsg(a) => EncodeConnack(a)
    case PublishMsg(p) => EncodePublish(p)
    case ListMsg(l) => EncodeList(l, WithQos(l))
    case SubackMsg(s) => EncodeSuback(s)
    case AckMsg(h, id) => Emit(h, 2, U16(SeqToWire(id)))
    case EmptyMsg(h) => Emit(h, 0, [])
  }

  /** A message that its encoder accepts, whose header names its type, whose strings have a
      length that two bytes can hold, and that fits a packet. */
  ghost predicate Sendable(m: Msg) {
    |Body(m)| <= MAX_LENGTH &&
    match m
    case ConnectMsg(c) => c.header.command == CONNECT && Check(c) == 0 && AllShort(Strings(c))
    case ConnackMsg(a) => a.header.command == CONNACK
    case PublishMsg(p) => p.header.command == PUBLISH && |p.topic| < 0x1_0000
    case ListMsg(l) =>
      && (l.header.command == SUBSCRIBE || l.header.command == UNSUBSCRIBE)
      && l.topics != [] && ShortTopics(l.topics)
      && (WithQos(l) || forall i :: 0 <= i < |l.topics| ==> l.topics[i].1 == 0)
    case SubackMsg(s) => s.header.command == SUBACK
    case AckMsg(h, _) => CarriesIdAlone(h.command)
    case EmptyMsg(h) => CarriesNothing(h.command)
  }

  function DecodeAck(buf: seq<Byte>): Option<(Header, Int16)> {
    var (h, _, step) :- ReadFixed(buf);
    var t :- ReadU16(buf, step);
    Some((h, SeqFromWire(t)))
  }

  /** parseMqtt: a new object of the type that the header names decodes the frame. id0 is
      what a new MqttPublish holds as its identifier. None is nullptr. */
  function ParseMqtt(frame: seq<Byte>, id0: Int16): Option<Msg> {
    if frame == [] then None
    else
      var command := UnpackHeader(frame[0]).command;
      if command == CONNECT then
        var c :- DecodeConnect(frame); Some(ConnectMsg(c))
      else if command == CONNACK then
        var a :- DecodeConnack(frame); Some(ConnackMsg(a))
      else if command == PUBLISH then
        var p :- DecodePublish(frame, id0); Some(PublishMsg(p))
      else if command == SUBSCRIBE then
        var l :- DecodeList(frame, true); Some(ListMsg(l))
      else if command == UNSUBSCRIBE then
        var l :- DecodeList(frame, false); Some(ListMsg(l))
      else if command == SUBACK then
        var s :- DecodeSuback(frame); Some(SubackMsg(s))
      else if CarriesIdAlone(command) then
        var (h, id) :- DecodeAck(frame); Some(AckMsg(h, id))
      else if CarriesNothing(command) then
        var (h, _, _) :- ReadFixed(frame); Some(EmptyMsg(h))
      else None
  }

  /** What arrives for a message: a publication with QoS 0 carries no identifier. */
  function Seen(m: Msg, id0: Int16): Msg {
    if m.PublishMsg? && m.publish.header.qos == 0 then PublishMsg(m.publish.(id := id0)) else m
  }

  // ----- one message

  /** A sendable message is encoded to its fixed header, which declares the length of the
      body, and its body. */
  lemma EncodedIs(m: Msg)
    requires Sendable(m)
    ensures var out := FixedHeader(HeaderOf(m), |Body(m)|) + Body(m);
            Encode(m) == (|out|, out)
  {
    match m {
      case ConnectMsg(c) => ConnectEncoded(c);
      case ConnackMsg(a) => EmitFits(a.header, CONNACK_SIZE, Body(m));
      case PublishMsg(p) => PublishSizeIsBody(p); EmitFits(p.header, PublishSize(p), Body(m));
      case ListMsg(l) => ListEncoded(l, WithQos(l));
      case SubackMsg(s) => EmitFits(s.header, (2 + |s.results|) % 0x1_0000_0000, Body(m));
      case AckMsg(h, _) => EmitFits(h, 2, Body(m));
      case EmptyMsg(h) => EmitFits(h, 0, Body(m));
    }
  }

  /** Such bytes are one frame. */
  lemma HeaderAndBodyIsFrame(h: Header, body: seq<Byte>)
    requires |body| <= MAX_LENGTH
    ensures IsFrame(FixedHeader(h, |body|) + body)
  {
    var field := VarLen(|body|);
    var f := FixedHeader(h, |body|) + body;
    VarLenIsField(|body|);
    VarLenWidth(|body|);
    assert f[1..1 + |field|] == field;
    assert FrameWith(f, |field|);
  }

  lemma AckComesBack(h: Header, id: Int16, pre: seq<Byte>, body: seq<Byte>)
    requires body == U16(SeqToWire(id)) && pre == FixedHeader(h, |body|)
    ensures DecodeAck(pre + body) == Some((h, id))
  {
    ReadFixedHeader(h, |body|, body);
    ReadU16AtEnd(pre, SeqToWire(id));
    AckAssembled(h, id, pre + body, |body|, |pre|);
  }

  lemma AckAssembled(h: Header, id: Int16, buf: seq<Byte>, size: nat, step: nat)
    requires ReadFixed(buf) == Some((h, size, step)) && ReadU16(buf, step) == Some(SeqToWire(id))
    ensures DecodeAck(buf) == Some((h, id))
  {
  }

  lemma ReadU16AtEnd(pre: seq<Byte>, n: Uint16)
    ensures ReadU16(pre + U16(n), |pre|) == Some(n)
  {
    ReadEncU16(pre, n, []);
    assert pre + U16(n) + [] == pre + U16(n);
  }

  /** The first byte of what is sent names the decoder that is used. */
  lemma CommandIsFirst(h: Header, body: seq<Byte>)
    ensures (FixedHeader(h, |body|) + body)[0] == PackHeader(h) && UnpackHeader(PackHeader(h)) == h
  {
    HeaderBits(h, 0);
  }

  lemma SentUnder(m: Msg)
    requires Sendable(m)
    ensures Encode(m).1 != [] && UnpackHeader(Encode(m).1[0]) == HeaderOf(m)
    ensures Encode(m).1 == FixedHeader(HeaderOf(m), |Body(m)|) + Body(m)
  {
    EncodedIs(m);
    CommandIsFirst(HeaderOf(m), Body(m));
  }

  /** The frame's first byte names the type of m, whose decoder gives m. */
  ghost predicate DecodesTo(frame: seq<Byte>, m: Msg, id0: Int16) {
    frame != [] &&
    var command := UnpackHeader(frame[0]).command;
    match m
    case ConnectMsg(c) => command == CONNECT && DecodeConnect(frame) == Some(c)
    case ConnackMsg(a) => command == CONNACK && DecodeConnack(frame) == Some(a)
    case PublishMsg(p) => command == PUBLISH && DecodePublish(frame, id0) == Some(p)
    case ListMsg(l) =>
      (command == SUBSCRIBE || command == UNSUBSCRIBE) && DecodeList(frame, command == SUBSCRIBE) == Some(l)
    case SubackMsg(s) => command == SUBACK && DecodeSuback(frame) == Some(s)
    case AckMsg(h, id) => CarriesIdAlone(command) && DecodeAck(frame) == Some((h, id))
    case EmptyMsg(h) => CarriesNothing(command) && ReadFixed(frame).Some? && ReadFixed(frame).value.0 == h
  }

  lemma DispatchIs(frame: seq<Byte>, m: Msg, id0: Int16)
    requires DecodesTo(frame, m, id0)
    ensures ParseMqtt(frame, id0) == Some(m)
  {
  }

  lemma DecoderGives(frame: seq<Byte>, m: Msg, id0: Int16)
    requires Sendable(m) && frame == Encode(m).1 == FixedHeader(HeaderOf(m), |Body(m)|) + Body(m)
    requires frame != [] && UnpackHeader(frame[0]) == HeaderOf(m)
    ensures DecodesTo(frame, Seen(m, id0), id0)
  {
    match m {
      case ConnectMsg(c) => ConnectRoundTrip(c);
      case ConnackMsg(a) => ConnackRoundTrip(a);
      case PublishMsg(p) => PublishRoundTrip(p, id0);
      case ListMsg(l) => ListRoundTrip(l, WithQos(l));
      case SubackMsg(s) => SubackRoundTrip(s);
      case AckMsg(h, id) => AckComesBack(h, id, FixedHeader(h, |Body(m)|), Body(m));
      case EmptyMsg(h) => ReadFixedHeader(h, 0, []);
    }
  }

  /** Every sendable message comes back from its frame. */
  lemma MessageComesBack(m: Msg, id0: Int16)
    requires Sendable(m)
    ensures IsFrame(Encode(m).1) && ParseMqtt(Encode(m).1, id0) == Some(Seen(m, id0))
  {
    SentUnder(m);
    HeaderAndBodyIsFrame(HeaderOf(m), Body(m));
    DecoderGives(Encode(m).1, m, id0);
    DispatchIs(Encode(m).1, Seen(m, id0), id0);
  }

  // ----- a stream of messages

  function Frame(m: Msg): seq<Byte> { Encode(m).1 }

  function FramesOf(ms: seq<Msg>): seq<seq<Byte>> {
    if ms == [] then [] else [Frame(ms[0])] + FramesOf(ms[1..])
  }

  function SeenAll(ms: seq<Msg>, id0: Int16): seq<Msg> {
    if ms == [] then [] else [Seen(ms[0], id0)] + SeenAll(ms[1..], id0)
  }

  /** The messages of some frames, up to the first that cannot be parsed: there the session
      is closed. */
  function ParseAll(frames: seq<seq<Byte>>, id0: Int16): seq<Msg> {
    if frames == [] then []
    else match ParseMqtt(frames[0], id0)
      case None => []
      case Some(m) => [m] + ParseAll(frames[1..], id0)
  }

  lemma {:induction false} MessagesComeBack(ms: seq<Msg>, id0: Int16)
    requires forall m :: m in ms ==> Sendable(m)
    ensures forall f :: f in FramesOf(ms) ==> IsFrame(f)
    ensures ParseAll(FramesOf(ms), id0) == SeenAll(ms, id0)
  {
    if ms != [] {
      MessageComesBack(ms[0], id0);
      MessagesComeBack(ms[1..], id0);
      assert FramesOf(ms)[1..] == FramesOf(ms[1..]);
    }
  }

  /** The session's loop: read a frame, parse it, hand the message on, and read again. */
  method Receive(session: MqttSession, id0: Int16) returns (got: seq<Msg>)
    modifies session`carry, session.socket
    ensures got == ParseAll(Frames(old(session.Unread())), id0)
  {
    got := [];
    ghost var left := session.Unread();
    ghost var all := ParseAll(Frames(left), id0);
    while true
      invariant session.Unread() == left && got + ParseAll(Frames(left), id0) == all
      decreases |left|
    {
      ghost var before := left;
      var r := session.ReadMessage();
      if !r.Next? {
        return;
      }
      left := session.Unread();
      FramesStep(before, r.frame, left);
      var m := ParseMqtt(r.frame, id0);
      ParseStep(r.frame, Frames(left), id0);
      if m == None {
        return;
      }
      Associate(got, [m.value], ParseAll(Frames(left), id0));
      got := got + [m.value];
    }
  }

  lemma FramesStep(s: seq<Byte>, f: seq<Byte>, rest: seq<Byte>)
    requires FrameLength(s).Some? && f == s[..FrameLength(s).value] && rest == s[FrameLength(s).value..]
    ensures Frames(s) == [f] + Frames(rest)
  {
  }

  lemma ParseStep(f: seq<Byte>, fs: seq<seq<Byte>>, id0: Int16)
    ensures ParseAll([f] + fs, id0) == match ParseMqtt(f, id0) case None => [] case Some(m) => [m] + ParseAll(fs, id0)
  {
    assert ([f] + fs)[1..] == fs;
  }

  /** For every list of sendable messages and every way to cut the bytes they are encoded
      to into chunks, the other end receives exactly these messages, in order. */
  method Transfer(ms: seq<Msg>, chunks: seq<seq<Byte>>, id0: Int16) returns (got: seq<Msg>)
    requires forall m :: m in ms ==> Sendable(m)
    requires Flat(chunks) == Flat(FramesOf(ms))
    ensures got == SeenAll(ms, id0)
  {
    var socket := new Socket(chunks);
    var session := new MqttSession(socket);
    MessagesComeBack(ms, id0);
    FramesOfFlat(FramesOf(ms));
    assert session.Unread() == Flat(FramesOf(ms));
    got := Receive(session, id0);
  }
}
