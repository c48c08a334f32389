/** CONNECT (section 3.1 of MQTT 3.1.1, MqttConnect in src/mqtt/Protocol.cpp). */
module ConnectPacket {
  import opened Basics
  import opened RemainingLength
  import opened Wire

  datatype Connect = Connect(header: Header, protocol: Str, level: Byte, flag: ConnectFlag, keepTime: Uint16,
                             cid: Str, willTopic: Str, willMsg: Str, user: Str, passwd: Str)

  /** "MQTT" */
  const MQTT: Str := [0x4D, 0x51, 0x54, 0x54]

  predicate IsIdChar(b: Byte) {
    0x61 <= b <= 0x7A || 0x41 <= b <= 0x5A || 0x30 <= b <= 0x39 || b == 0x40 || b == 0x2E || b == 0x5F
  }

  /** c_str(): the string up to its first zero byte. */
  function CStr(s: Str): Str {
    if s == [] || s[0] == 0 then [] else [s[0]] + CStr(s[1..])
  }

  /** The client identifier matches [a-zA-Z0-9@._]{0,23}. It is matched as a C string. */
  predicate CidMatches(cid: Str) {
    |CStr(cid)| <= 23 && forall i :: 0 <= i < |CStr(cid)| ==> IsIdChar(CStr(cid)[i])
  }

  /** The checks before anything is written, in order; 0 if all pass. */
  function Check(m: Connect): int {
    if m.protocol != MQTT then -1
    else if !CidMatches(m.cid) then -2
    else if |m.cid| == 0 && !m.flag.cleanSession then -3
    else if m.flag.name != m.flag.passwd then -4
    else if (m.flag.name && |m.user| == 0) || (!m.flag.name && |m.user| > 0) then -5
    else if (m.flag.passwd && |m.passwd| == 0) || (!m.flag.passwd && |m.passwd| > 0) then -6
    else 0
  }

  /** The strings of the payload. */
  const STRINGS := 5

  function Strings(m: Connect): (ss: seq<Str>)
    ensures |ss| == STRINGS
  {
    [m.cid, m.willTopic, m.willMsg, m.user, m.passwd]
  }

  function VariableHeader(m: Connect): seq<Byte> {
    EncStr(m.protocol) + [m.level, PackFlag(m.flag)] + U16(m.keepTime)
  }

  function ConnectBody(m: Connect): seq<Byte> {
    VariableHeader(m) + EncStrs(Strings(m))
  }

  function ConnectSize(m: Connect): nat {
    var vheader := 2 + |m.protocol| + 1 + 1 + 2;
    var payload := 2 + |m.cid| + 2 + |m.willTopic| + 2 + |m.willMsg| + 2 + |m.user| + 2 + |m.passwd|;
    (vheader + payload) % 0x1_0000_0000
  }

  lemma PayloadBytes(m: Connect)
    ensures EncStrs(Strings(m))
         == EncStr(m.cid) + EncStr(m.willTopic) + EncStr(m.willMsg) + EncStr(m.user) + EncStr(m.passwd)
  {
    var p4: seq<Str> := [m.passwd];
    var p3 := [m.user] + p4;
    var p2 := [m.willMsg] + p3;
    var p1 := [m.willTopic] + p2;
    assert Strings(m) == [m.cid] + p1;
    assert p4[1..] == [] && p3[1..] == p4 && p2[1..] == p3 && p1[1..] == p2 && Strings(m)[1..] == p1;
    assert EncStrs(p4) == EncStr(m.passwd) && EncStrs(p3) == EncStr(m.user) + EncStrs(p4);
    assert EncStrs(p2) == EncStr(m.willMsg) + EncStrs(p3) && EncStrs(p1) == EncStr(m.willTopic) + EncStrs(p2);
  }

  /** The declared size is the number of bytes after the fixed header. */
  lemma ConnectSizeIsBody(m: Connect)
    ensures ConnectSize(m) == |ConnectBody(m)| % 0x1_0000_0000
  {
    PayloadBytes(m);
  }

  function EncodeConnect(m: Connect): (int, seq<Byte>) {
    if Check(m) != 0 then (Check(m), []) else Emit(m.header, ConnectSize(m), ConnectBody(m))
  }

  /** Protocol name, level, flags, keep-alive time, and the position behind them. */
  function ReadVariableHeader(buf: seq<Byte>, step: nat): Option<(Str, Byte, ConnectFlag, Uint16, nat)> {
    var (protocol, step) :- ReadStr(buf, step);
    if step + 2 > |buf| then None
    else
      var keep :- ReadU16(buf, step + 2);
      Some((protocol, buf[step], UnpackFlag(buf[step + 1]), keep, step + 4))
  }

  function DecodeConnect(buf: seq<Byte>): Option<Connect> {
    var (h, size, step) :- ReadFixed(buf);
    var (protocol, level, flag, keep, step) :- ReadVariableHeader(buf, step);
    var (p, _) :- ReadStrs(buf, step, STRINGS);
    Some(Connect(h, protocol, level, flag, keep, p[0], p[1], p[2], p[3], p[4]))
  }

  lemma VariableHeaderComesBack(m: Connect, pre: seq<Byte>, post: seq<Byte>)
    requires |m.protocol| < 0x1_0000
    ensures ReadVariableHeader(pre + VariableHeader(m) + post, |pre|)
         == Some((m.protocol, m.level, m.flag, m.keepTime, |pre| + |VariableHeader(m)|))
  {
    var buf := pre + VariableHeader(m) + post;
    var named := pre + EncStr(m.protocol);
    var two := [m.level, PackFlag(m.flag)];
    assert buf == named + (two + U16(m.keepTime) + post);
    ReadEncStr(pre, m.protocol, two + U16(m.keepTime) + post);
    assert buf == (named + two) + U16(m.keepTime) + post;
    ReadEncU16(named + two, m.keepTime, post);
    FlagBits(m.flag, 0);
    assert buf[|named|] == m.level && buf[|named| + 1] == PackFlag(m.flag);
  }

  lemma Assembled(m: Connect, buf: seq<Byte>, size: nat, step: nat, next: nat, end: nat)
    requires ReadFixed(buf) == Some((m.header, size, step))
    requires ReadVariableHeader(buf, step) == Some((m.protocol, m.level, m.flag, m.keepTime, next))
    requires ReadStrs(buf, next, STRINGS) == Some((Strings(m), end))
    ensures DecodeConnect(buf) == Some(m)
  {
  }

  lemma VariableHeaderInFront(m: Connect, pre: seq<Byte>, e: seq<Byte>, buf: seq<Byte>)
    requires |m.protocol| < 0x1_0000 && buf == pre + (VariableHeader(m) + e)
    ensures ReadVariableHeader(buf, |pre|)
         == Some((m.protocol, m.level, m.flag, m.keepTime, |pre + VariableHeader(m)|))
  {
    Associate(pre, VariableHeader(m), e);
    VariableHeaderComesBack(m, pre, e);
  }

  lemma PartsComeBack(m: Connect, pre: seq<Byte>, buf: seq<Byte>)
    requires |m.protocol| < 0x1_0000 && AllShort(Strings(m))
    requires buf == pre + ConnectBody(m) && ReadFixed(buf) == Some((m.header, |ConnectBody(m)|, |pre|))
    ensures DecodeConnect(buf) == Some(m)
  {
    var v, ss := VariableHeader(m), Strings(m);
    VariableHeaderInFront(m, pre, EncStrs(ss), buf);
    Associate(pre, v, EncStrs(ss));
    ReadEncStrs(pre + v, ss, buf);
    Assembled(m, buf, |ConnectBody(m)|, |pre|, |pre + v|, |buf|);
  }

  lemma ConnectEncoded(m: Connect)
    requires Check(m) == 0 && |ConnectBody(m)| <= MAX_LENGTH
    ensures var out := FixedHeader(m.header, |ConnectBody(m)|) + ConnectBody(m);
            EncodeConnect(m) == (|out|, out)
  {
    ConnectSizeIsBody(m);
    EmitFits(m.header, ConnectSize(m), ConnectBody(m));
  }

  lemma ConnectComesBack(m: Connect)
    requires |m.protocol| < 0x1_0000 && AllShort(Strings(m)) && |ConnectBody(m)| <= MAX_LENGTH
    ensures DecodeConnect(FixedHeader(m.header, |ConnectBody(m)|) + ConnectBody(m)) == Some(m)
  {
    var size := |ConnectBody(m)|;
    ReadFixedHeader(m.header, size, ConnectBody(m));
    PartsComeBack(m, FixedHeader(m.header, size), FixedHeader(m.header, size) + ConnectBody(m));
  }

  /** Every accepted CONNECT comes back from the wire exactly when its strings are shorter
      than 65536 bytes. */
  lemma ConnectRoundTrip(m: Connect)
    requires Check(m) == 0 && |ConnectBody(m)| <= MAX_LENGTH
    ensures EncodeConnect(m).0 == |EncodeConnect(m).1|
    ensures DecodeConnect(EncodeConnect(m).1) == Some(m) <==> AllShort(Strings(m))
  {
    ConnectEncoded(m);
    if AllShort(Strings(m)) {
      ConnectComesBack(m);
    } else {
      DecodedIsShort(EncodeConnect(m).1);
    }
  }

  /** Strings that short always fit the packet. */
  lemma ShortFits(m: Connect)
    requires Check(m) == 0 && AllShort(Strings(m))
    ensures |ConnectBody(m)| <= MAX_LENGTH
  {
    PayloadBytes(m);
    var p := Strings(m);
    assert |p[0]| < 0x1_0000 && |p[1]| < 0x1_0000 && |p[2]| < 0x1_0000 && |p[3]| < 0x1_0000 && |p[4]| < 0x1_0000;
  }

  lemma DecodedIsShort(buf: seq<Byte>)
    ensures DecodeConnect(buf).Some? ==> AllShort(Strings(DecodeConnect(buf).value))
  {
  }

  /** What a message object holds after decoding: every string is appended to the one it
      held before. */
  function Appended(before: Connect, m: Connect): (r: Connect)
    ensures before.protocol == before.cid == before.willTopic == before.willMsg == before.user == before.passwd == []
            ==> r == m
  {
    m.(protocol := before.protocol + m.protocol, cid := before.cid + m.cid, willTopic := before.willTopic + m.willTopic,
       willMsg := before.willMsg + m.willMsg, user := before.user + m.user, passwd := before.passwd + m.passwd)
  }

  /** The message object. */
  class MqttConnect {
    var size: nat
    var header: Header
    var protocol: Str
    var level: Byte
    var flag: ConnectFlag
    var keepTime: Uint16
    var cid: Str
    var willTopic: Str
    var willMsg: Str
    var user: Str
    var passwd: Str

    ghost function Value(): Connect
      reads this
    {
      Connect(header, protocol, level, flag, keepTime, cid, willTopic, willMsg, user, passwd)
    }

    constructor ()
      ensures protocol == cid == willTopic == willMsg == user == passwd == []
    {
      size, header, protocol, level := 0, Header(false, 0, false, 0), [], 0;
      flag, keepTime := ConnectFlag(false, false, false, 0, false, false, false), 0;
      cid, willTopic, willMsg, user, passwd := [], [], [], [], [];
    }

    method Encode(buf: seq<Byte>) returns (ret: int, out: seq<Byte>)
      modifies this`size
      ensures out == buf + EncodeConnect(Value()).1
      ensures ret == if EncodeConnect(Value()).0 < 0 then EncodeConnect(Value()).0 else |out|
      ensures size == if Check(Value()) == 0 then ConnectSize(Value()) else old(size)
    {
      out := buf;
      if protocol != MQTT { return -1, out; }
      if !CidMatches(cid) { return -2, out; }
      if |cid| == 0 && !flag.cleanSession { return -3, out; }
      if flag.name != flag.passwd { return -4, out; }
      if (flag.name && |user| == 0) || (!flag.name && |user| > 0) { return -5, out; }
      if (flag.passwd && |passwd| == 0) || (!flag.passwd && |passwd| > 0) { return -6, out; }
      var vheaderLen := 2 + |protocol| + 1 + 1 + 2;
      var payloadLen := 2 + |cid| + 2 + |willTopic| + 2 + |willMsg| + 2 + |user| + 2 + |passwd|;
      size := (vheaderLen + payloadLen) % 0x1_0000_0000;
      var ok;
      ok, out := PushFixedHeader(out, header, size);
      if !ok { return TOO_LONG, out; }
      out := PushBody(out);
      Associate(buf, FixedHeader(header, size), ConnectBody(Value()));
      return |out|, out;
    }

    method PushBody(buf: seq<Byte>) returns (out: seq<Byte>)
      ensures out == buf + ConnectBody(Value())
    {
      out := PushVariableHeader(buf);
      out := PushPayload(out);
      Associate(buf, VariableHeader(Value()), EncStrs(Strings(Value())));
    }

    method PushVariableHeader(buf: seq<Byte>) returns (out: seq<Byte>)
      ensures out == buf + VariableHeader(Value())
    {
      out := buf + EncStr(protocol);
      out := out + [level];
      out := out + [PackFlag(flag)];
      out := out + U16(keepTime);
    }

    method PushPayload(buf: seq<Byte>) returns (out: seq<Byte>)
      ensures out == buf + EncStrs(Strings(Value()))
    {
      PayloadBytes(Value());
      out := buf + EncStr(cid);
      out := out + EncStr(willTopic);
      out := out + EncStr(willMsg);
      out := out + EncStr(user);
      out := out + EncStr(passwd);
    }

    method Decode(buf: seq<Byte>) returns (ret: Option<int>)
      modifies this
      ensures ret == if DecodeConnect(buf) == None then None else Some(|buf|)
      ensures ret.Some? ==> size == ReadFixed(buf).value.1
      ensures ret.Some? ==> Value() == Appended(old(Value()), DecodeConnect(buf).value)
    {
      var fixed := ReadFixed(buf);
      if fixed == None { return None; }
      header, size := fixed.value.0, fixed.value.1;
      var step := fixed.value.2;
      var next := TakeVariableHeader(buf, step);
      if next == None { return None; }
      step := next.value;
      var ok := TakePayload(buf, step);
      return if ok then Some(|buf|) else None;
    }

    method TakeVariableHeader(buf: seq<Byte>, step0: nat) returns (step: Option<nat>)
      modifies `protocol, `level, `flag, `keepTime
      ensures var r := ReadVariableHeader(buf, step0);
              if r == None then step == None
              else && step == Some(r.value.4)
                   && protocol == old(protocol) + r.value.0
                   && level == r.value.1 && flag == r.value.2 && keepTime == r.value.3
    {
      var r := ReadStr(buf, step0);
      if r == None { return None; }
      protocol := protocol + r.value.0;
      var at := r.value.1;
      if at + 2 > |buf| { return None; }
      level := buf[at];
      at := at + 1;
      flag := UnpackFlag(buf[at]);
      at := at + 1;
      var keep := ReadU16(buf, at);
      if keep == None { return None; }
      keepTime := keep.value;
      return Some(at + 2);
    }

    method TakePayload(buf: seq<Byte>, step0: nat) returns (ok: bool)
      modifies `cid, `willTopic, `willMsg, `user, `passwd
      ensures var r := ReadStrs(buf, step0, STRINGS);
              && ok == r.Some?
              && (ok ==> && cid == old(cid) + r.value.0[0] && willTopic == old(willTopic) + r.value.0[1]
                         && willMsg == old(willMsg) + r.value.0[2] && user == old(user) + r.value.0[3]
                         && passwd == old(passwd) + r.value.0[4])
    {
      var step := step0;
      var r := NextString(buf, step, 5);
      if r == None { return false; }
      cid, step := cid + r.value.0, r.value.1;
      r := NextString(buf, step, 4);
      if r == None { return false; }
      willTopic, step := willTopic + r.value.0, r.value.1;
      r := NextString(buf, step, 3);
      if r == None { return false; }
      willMsg, step := willMsg + r.value.0, r.value.1;
      r := NextString(buf, step, 2);
      if r == None { return false; }
      user, step := user + r.value.0, r.value.1;
      r := NextString(buf, step, 1);
      if r == None { return false; }
      passwd, step := passwd + r.value.0, r.value.1;
      assert ReadStrs(buf, step, 0) == Some(([], step));
      return true;
    }
  }

  /** Reading the first of n strings. */
  method NextString(buf: seq<Byte>, step: nat, ghost n: nat) returns (r: Option<(Str, nat)>)
    requires n > 0
    ensures r == ReadStr(buf, step)
    ensures ReadStrs(buf, step, n) ==
              if r == None then None
              else
                var rest := ReadStrs(buf, r.value.1, n - 1);
                if rest == None then None else Some(([r.value.0] + rest.value.0, rest.value.1))
  {
    r := ReadStr(buf, step);
  }
}
