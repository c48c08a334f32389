/** The parts that all packets are made of, as src/mqtt/Protocol.cpp means them: bit
    fields, sixteen-bit numbers, length-prefixed strings and the fixed header. The code as
    it stands departs from this in ways that module AsWrittenPackets treats. */
module Wire {
  import opened Basics
  import opened RemainingLength

  /** A string of the protocol, as the bytes it is made of. */
  type Str = seq<Byte>

  // ----- bit fields

  /** MQTTHeader: Retain is bit 0, QoS bits 1 and 2, Dup bit 3, Command bits 4 to 7. */
  datatype Header = Header(retain: bool, qos: Bits2, dup: bool, command: Bits4)

  type Bits2 = b: int | 0 <= b < 4
  type Bits4 = b: int | 0 <= b < 16

  function Bit(b: bool): nat { if b then 1 else 0 }

  function PackHeader(h: Header): Byte {
    Bit(h.retain) + 2 * (h.qos + 4 * (Bit(h.dup) + 2 * h.command))
  }

  function UnpackHeader(b: Byte): Header {
    Header(b % 2 == 1, b / 2 % 4, b / 2 / 4 % 2 == 1, b / 2 / 4 / 2)
  }

  /** Header bytes and headers correspond one to one. */
  lemma HeaderBits(h: Header, b: Byte)
    ensures UnpackHeader(PackHeader(h)) == h
    ensures PackHeader(UnpackHeader(b)) == b
  {
    var p: int := PackHeader(h);
    assert p / 2 == h.qos + 4 * (Bit(h.dup) + 2 * h.command);
    assert p / 2 / 4 == Bit(h.dup) + 2 * h.command;
    var n: int := b;
    assert n == n % 2 + 2 * (n / 2) && n / 2 == n / 2 % 4 + 4 * (n / 2 / 4);
  }

  /** SMQTTConnectFlag, from bit 0 up. */
  datatype ConnectFlag = ConnectFlag(reserved: bool, cleanSession: bool, will: bool, willQos: Bits2,
                                     willRetain: bool, passwd: bool, name: bool)

  function PackHigh(f: ConnectFlag): Bits4 {
    (f.willQos / 2) + 2 * (Bit(f.willRetain) + 2 * (Bit(f.passwd) + 2 * Bit(f.name)))
  }

  function PackLow(f: ConnectFlag): Bits4 {
    Bit(f.reserved) + 2 * (Bit(f.cleanSession) + 2 * (Bit(f.will) + 2 * (f.willQos % 2)))
  }

  function PackFlag(f: ConnectFlag): Byte {
    PackLow(f) + 16 * PackHigh(f)
  }

  function UnpackFlag(b: Byte): ConnectFlag {
    var lo, hi := b % 16, b / 16;
    ConnectFlag(lo % 2 == 1, lo / 2 % 2 == 1, lo / 4 % 2 == 1, lo / 8 + 2 * (hi % 2),
                hi / 2 % 2 == 1, hi / 4 % 2 == 1, hi / 8 == 1)
  }

  lemma LowBits(f: ConnectFlag)
    ensures var lo: int := PackLow(f);
            && (lo % 2 == 1 <==> f.reserved) && (lo / 2 % 2 == 1 <==> f.cleanSession)
            && (lo / 4 % 2 == 1 <==> f.will) && lo / 8 == f.willQos % 2
  {
    var lo: int := PackLow(f);
    assert lo / 2 == Bit(f.cleanSession) + 2 * (Bit(f.will) + 2 * (f.willQos % 2));
    assert lo / 4 == Bit(f.will) + 2 * (f.willQos % 2);
  }

  lemma HighBits(f: ConnectFlag)
    ensures var hi: int := PackHigh(f);
            && hi % 2 == f.willQos / 2 && (hi / 2 % 2 == 1 <==> f.willRetain)
            && (hi / 4 % 2 == 1 <==> f.passwd) && (hi / 8 == 1 <==> f.name)
  {
    var hi: int := PackHigh(f);
    assert hi / 2 == Bit(f.willRetain) + 2 * (Bit(f.passwd) + 2 * Bit(f.name));
    assert hi / 4 == Bit(f.passwd) + 2 * Bit(f.name);
  }

  /** Four bits are the sum of their digits. */
  lemma FourBits(n: int)
    requires 0 <= n < 16
    ensures n == n % 2 + 2 * (n / 2 % 2 + 2 * (n / 4 % 2 + 2 * (n / 8)))
  {
    assert n == n % 2 + 2 * (n / 2) && n / 2 == n / 2 % 2 + 2 * (n / 4) && n / 4 == n / 4 % 2 + 2 * (n / 8);
  }

  /** Flag bytes and connect flags correspond one to one. */
  lemma FlagBits(f: ConnectFlag, b: Byte)
    ensures UnpackFlag(PackFlag(f)) == f
    ensures PackFlag(UnpackFlag(b)) == b
  {
    var p: int := PackFlag(f);
    assert p % 16 == PackLow(f) && p / 16 == PackHigh(f);
    LowBits(f);
    HighBits(f);
    FlagOfByte(b);
  }

  lemma FlagOfByte(b: Byte)
    ensures PackFlag(UnpackFlag(b)) == b
  {
    var n: int := b;
    NibblesOfFlag(n % 16, n / 16, UnpackFlag(b));
  }

  lemma NibblesOfFlag(lo: int, hi: int, f: ConnectFlag)
    requires 0 <= lo < 16 && 0 <= hi < 16
    requires Bit(f.reserved) == lo % 2 && Bit(f.cleanSession) == lo / 2 % 2 && Bit(f.will) == lo / 4 % 2
    requires f.willQos == lo / 8 + 2 * (hi % 2)
    requires Bit(f.willRetain) == hi / 2 % 2 && Bit(f.passwd) == hi / 4 % 2 && Bit(f.name) == hi / 8
    ensures PackLow(f) == lo && PackHigh(f) == hi
  {
    FourBits(lo);
    FourBits(hi);
    assert 0 <= lo / 8 < 2;
    assert f.willQos % 2 == lo / 8 && f.willQos / 2 == hi % 2;
  }

  // ----- sixteen-bit numbers

  type Uint16 = u: int | 0 <= u < 0x1_0000

  /** The conversions between the identifier's signed type and the wire. */
  function SeqToWire(i: Int16): Uint16 { if i < 0 then i + 0x1_0000 else i }

  function SeqFromWire(u: Uint16): Int16 { if u >= 0x8000 then u - 0x1_0000 else u }

  /** Most significant byte first. */
  function U16(n: Uint16): (r: seq<Byte>)
    ensures |r| == 2
  {
    [n / 256, n % 256]
  }

  /** Reading at a position; None where the C++ would read past the end of the buffer. */
  function ReadU16(buf: seq<Byte>, step: nat): (r: Option<Uint16>)
    ensures r.Some? ==> step + 2 <= |buf|
  {
    if step + 2 <= |buf| then
      var hi: int := buf[step];
      Some(hi * 256 + buf[step + 1])
    else None
  }

  // ----- strings

  /** A string behind its length, which is cut to sixteen bits. */
  function EncStr(s: Str): (r: seq<Byte>)
    ensures |r| == 2 + |s|
  {
    U16(|s| % 0x1_0000) + s
  }

  function ReadStr(buf: seq<Byte>, step: nat): (r: Option<(Str, nat)>)
    ensures r.Some? ==> step + 2 <= r.value.1 <= |buf| && |r.value.0| == r.value.1 - step - 2 < 0x1_0000
  {
    var t :- ReadU16(buf, step);
    if step + 2 + t <= |buf| then Some((buf[step + 2..step + 2 + t], step + 2 + t)) else None
  }

  lemma ReadEncU16(pre: seq<Byte>, n: Uint16, post: seq<Byte>)
    ensures ReadU16(pre + U16(n) + post, |pre|) == Some(n)
  {
    var buf := pre + U16(n) + post;
    assert buf[|pre|] == n / 256 && buf[|pre| + 1] == n % 256;
  }

  lemma ReadEncStr(pre: seq<Byte>, s: Str, post: seq<Byte>)
    requires |s| < 0x1_0000
    ensures ReadStr(pre + EncStr(s) + post, |pre|) == Some((s, |pre| + 2 + |s|))
  {
    assert pre + EncStr(s) + post == pre + U16(|s|) + (s + post);
    ReadEncU16(pre, |s|, s + post);
    assert (pre + U16(|s|) + (s + post))[|pre| + 2..|pre| + 2 + |s|] == s;
  }

  // ----- the fixed header

  function FixedHeader(h: Header, size: nat): seq<Byte> {
    [PackHeader(h)] + VarLen(size)
  }

  /** The number of bytes of the length field, as the decoders count them: up to five, one
      more for every byte above 127. */
  function Width(buf: seq<Byte>, i: nat): (r: Option<nat>)
    requires 1 <= i <= 5
    ensures r.Some? ==> i <= r.value <= 5
    decreases 5 - i
  {
    if i == 5 then Some(5)
    else if i >= |buf| then None
    else if buf[i] > 0x7F then Width(buf, i + 1)
    else Some(i)
  }

  /** Header byte, declared size, and the position after the length field. A field without
      an end in four bytes is malformed. */
  function ReadFixed(buf: seq<Byte>): (r: Option<(Header, nat, nat)>)
    ensures r.Some? ==> 2 <= r.value.2 <= 5 && r.value.2 <= |buf|
  {
    var ll :- Width(buf, 1);
    if ll == 5 then None
    else Some((UnpackHeader(buf[0]), DecLenSpec(buf[1..1 + ll]), 1 + ll))
  }

  lemma {:induction false} WidthOfField(buf: seq<Byte>, f: seq<Byte>, i: nat)
    requires IsField(f) && |f| <= 4 && 1 + |f| <= |buf| && buf[1..1 + |f|] == f
    requires 1 <= i <= |f|
    ensures Width(buf, i) == Some(|f|)
    decreases |f| - i
  {
    assert buf[i] == f[i - 1];
    if i < |f| {
      WidthOfField(buf, f, i + 1);
    }
  }

  lemma ReadFixedHeader(h: Header, size: nat, body: seq<Byte>)
    requires size <= MAX_LENGTH
    ensures ReadFixed(FixedHeader(h, size) + body) == Some((h, size, 1 + |VarLen(size)|))
  {
    var f := VarLen(size);
    var buf := FixedHeader(h, size) + body;
    VarLenIsField(size);
    VarLenWidth(size);
    DecLenVarLen(size);
    assert buf[1..1 + |f|] == f;
    WidthOfField(buf, f, 1);
    HeaderBits(h, 0);
  }

  const TOO_LONG := -7

  /** Return value and bytes written by an encoder. */
  function Emit(h: Header, size: nat, body: seq<Byte>): (int, seq<Byte>) {
    if size > MAX_LENGTH then (TOO_LONG, [PackHeader(h)])
    else (1 + |VarLen(size)| + |body|, FixedHeader(h, size) + body)
  }

  /** An encoder whose declared size is the number of body bytes, up to wrapping. */
  lemma EmitFits(h: Header, size: nat, body: seq<Byte>)
    requires |body| <= MAX_LENGTH && size == |body| % 0x1_0000_0000
    ensures var out := FixedHeader(h, |body|) + body;
            Emit(h, size, body) == (|out|, out) && |out| > 0
  {
  }

  /** What is left of a packet that ends at the given position. */
  function Payload(buf: seq<Byte>, step: nat, end: nat): Option<Str> {
    if step <= end <= |buf| then Some(buf[step..end]) else None
  }

  lemma ReadPayload(pre: seq<Byte>, payload: Str)
    ensures Payload(pre + payload, |pre|, |pre| + |payload|) == Some(payload)
  {
    assert (pre + payload)[|pre|..|pre| + |payload|] == payload;
  }

  /** How every encoder begins: the header byte and, unless the size is too large, the
      length field. */
  method PushFixedHeader(buf: seq<Byte>, h: Header, size: nat) returns (ok: bool, out: seq<Byte>)
    ensures ok <==> size <= MAX_LENGTH
    ensures out == buf + if ok then FixedHeader(h, size) else [PackHeader(h)]
  {
    out := buf + [PackHeader(h)];
    if size > MAX_LENGTH { return false, out; }
    out := out + VarLen(size);
    return true, out;
  }

  /** Sums wrap the same way whether they are cut at every step or once at the end. */
  lemma WrapAdd(a: nat, b: nat)
    ensures (a % 0x1_0000_0000 + b) % 0x1_0000_0000 == (a + b) % 0x1_0000_0000
  {
  }

  // ----- several strings in a row

  function EncStrs(ss: seq<Str>): seq<Byte> {
    if ss == [] then [] else EncStr(ss[0]) + EncStrs(ss[1..])
  }

  function ReadStrs(buf: seq<Byte>, step: nat, n: nat): (r: Option<(seq<Str>, nat)>)
    ensures r.Some? ==> |r.value.0| == n && forall i :: 0 <= i < n ==> |r.value.0[i]| < 0x1_0000
    decreases n, |buf|
  {
    if n == 0 then Some(([], step))
    else
      var (s, step) :- ReadStr(buf, step);
      var (ss, step) :- ReadStrs(buf, step, n - 1);
      Some(([s] + ss, step))
  }

  ghost predicate AllShort(ss: seq<Str>) {
    forall i :: 0 <= i < |ss| ==> |ss[i]| < 0x1_0000
  }

  lemma {:induction false} ReadEncStrs(pre: seq<Byte>, ss: seq<Str>, buf: seq<Byte>)
    requires AllShort(ss) && buf == pre + EncStrs(ss)
    ensures ReadStrs(buf, |pre|, |ss|) == Some((ss, |buf|))
    decreases |ss|
  {
    if ss != [] {
      var s, rest := ss[0], ss[1..];
      var one, more := EncStr(s), EncStrs(rest);
      Associate(pre, one, more);
      FirstStr(pre, s, more, buf);
      ReadEncStrs(pre + one, rest, buf);
      StrsOneByOne(buf, |pre|, s, |pre + one|, rest, |rest|, |buf|);
      assert ss == [s] + rest;
    }
  }

  lemma FirstStr(pre: seq<Byte>, s: Str, more: seq<Byte>, buf: seq<Byte>)
    requires |s| < 0x1_0000 && buf == pre + EncStr(s) + more
    ensures ReadStr(buf, |pre|) == Some((s, |pre + EncStr(s)|))
  {
    ReadEncStr(pre, s, more);
  }

  lemma StrsOneByOne(buf: seq<Byte>, step: nat, s: Str, next: nat, ss: seq<Str>, n: nat, end: nat)
    requires ReadStr(buf, step) == Some((s, next)) && ReadStrs(buf, next, n) == Some((ss, end))
    ensures ReadStrs(buf, step, n + 1) == Some(([s] + ss, end))
  {
  }
}
