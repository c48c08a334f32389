/** The incremental reader of src/MqttSession.hpp: a header of at most five bytes, the
    length field byte by byte if need be, then the body. The socket delivers the stream
    in arbitrary chunks. do_read_len and length_ending are as written; do_read_message is
    with the corrections that module AsWrittenReader shows to be needed. */
module SessionReader {
  import opened Basics
  import opened RemainingLength
  import opened Framing

  /** The receiving side of a socket: the chunks in which the rest of the stream arrives. */
  class Socket {
    var chunks: seq<seq<Byte>>

    ghost function Data(): seq<Byte>
      reads this
    {
      Flat(chunks)
    }

    constructor (chunks: seq<seq<Byte>>)
      ensures this.chunks == chunks
    {
      this.chunks := chunks;
    }

    /** async_read_some: at least one byte and at most k of what has arrived; nothing only
        at the end of the stream. */
    method ReadSome(k: nat) returns (bs: seq<Byte>)
      requires k > 0
      modifies this
      ensures bs + Data() == old(Data()) && |bs| <= k
      ensures bs == [] <==> old(Data()) == []
    {
      while chunks != [] && chunks[0] == []
        invariant Data() == old(Data())
        decreases chunks
      {
        chunks := chunks[1..];
      }
      if chunks == [] {
        return [];
      }
      var first := chunks[0];
      if |first| <= k {
        bs := first;
        chunks := chunks[1..];
      } else {
        bs := first[..k];
        chunks := [first[k..]] + chunks[1..];
        assert first == first[..k] + first[k..];
        assert first[..k] + (first[k..] + Flat(chunks[1..])) == first + Flat(chunks[1..]);
      }
    }

    /** async_read: k bytes, or what is left if that is less. */
    method ReadFull(k: nat) returns (bs: seq<Byte>)
      modifies this
      ensures bs + Data() == old(Data())
      ensures |bs| == if k <= |old(Data())| then k else |old(Data())|
    {
      bs := [];
      while |bs| < k
        invariant bs + Data() == old(Data()) && |bs| <= k
        decreases k - |bs|
      {
        var more := ReadSome(k - |bs|);
        if more == [] {
          return;
        }
        bs := bs + more;
      }
    }
  }

  /** What do_read_len comes to: a call of its callback with the length, the width of the
      field and the number of bytes read; a call with an error; or no call at all. */
  datatype LenResult = Got(len: nat, lenSize: nat, bufferSize: nat) | Failed | Silent

  /** How four bytes of length buffer behind what has been read before come out. */
  ghost predicate ReadsLength(s: seq<Byte>, data: seq<Byte>, left: seq<Byte>, r: LenResult) {
    var w := Ending(Take(s, 4));
    if w > 0 then
      && r.Got? && r.lenSize == w && r.len == DecLenSpec(s[..w])
      && w <= r.bufferSize <= 4 && r.bufferSize <= |s|
      && |data| == 4 && data[..r.bufferSize] == s[..r.bufferSize] && left == s[r.bufferSize..]
    else r == if |s| >= 4 then Silent else Failed
  }

  /** What is known before the body is read: how many bytes of the stream are in the head and
      the size of the frame; or that there is no length field, and whether that is noticed
      without a word. */
  datatype Heading = Known(have: nat, total: nat) | NoField(silent: bool)

  function HeadingOf(got: LenResult): Heading {
    match got
    case Got(len, lenSize, bufferSize) => Known(1 + bufferSize, 1 + lenSize + len)
    case Silent => NoField(true)
    case Failed => NoField(false)
  }

  /** How the head comes out when s is unread: with four continuation bytes nothing is ever
      reported, and a stream that ends within the field is an error. */
  ghost predicate LengthRead(s: seq<Byte>, head: seq<Byte>, unread: seq<Byte>, r: Heading) {
    var w := FieldWidth(s);
    if w == 0 then r == NoField(|s| >= 5)
    else r.Known? && r.total == 1 + w + FieldValue(s[1..1 + w]) && InHead(s, head, unread, r.have)
  }

  ghost predicate InHead(s: seq<Byte>, head: seq<Byte>, unread: seq<Byte>, have: nat) {
    have <= |head| && head[..have] + unread == s
  }

  /** What becomes of one call of do_read_message: a frame is handed to parseMqtt; do_error
      closes the session, at the end of the stream; or nothing happens any more. */
  datatype Reading = Next(frame: seq<Byte>) | Error | Hangs

  /** How reading ends when there is no further frame in s. */
  function Ended(s: seq<Byte>): Reading {
    if FieldWidth(s) == 0 && |s| >= 5 then Hangs else Error
  }

  class MqttSession {
    const socket: Socket
    /** Bytes that were read with an earlier frame but belong to the next ones. */
    var carry: seq<Byte>

    ghost function Unread(): seq<Byte>
      reads this, socket
    {
      carry + socket.Data()
    }

    constructor (socket: Socket)
      ensures this.socket == socket && carry == []
    {
      this.socket := socket;
      carry := [];
    }

    /** length_ending. */
    static method LengthEnding(data: array<Byte>, from: nat, len: nat) returns (e: int)
      requires from + len <= data.Length
      ensures e == if len < 1 then -1 else Ending(data[from..from + len])
    {
      if len < 1 { return -1; }
      ghost var all := data[from..from + len];
      for i := 0 to len
        invariant forall j :: 0 <= j < i ==> all[j] >= 0x80
      {
        assert all[i] == data[from + i];
        if data[from + i] < 0x80 {
          EndingIs(all, i + 1);
          return i + 1;
        }
      }
      return 0;
    }

    /** do_read_len on the four bytes behind the header byte, readed of which are there. */
    method DoReadLen(head: array<Byte>, readed: nat) returns (r: LenResult)
      requires head.Length == 5 && readed <= 4 && NoEnd(head[1..1 + readed])
      modifies head, socket
      ensures head[0] == old(head[0])
      ensures ReadsLength(old(head[1..1 + readed] + socket.Data()), head[1..], socket.Data(), r)
      decreases 4 - readed
    {
      ghost var before := head[1..1 + readed];
      if readed == 4 {
        NotFound(before, socket.Data(), head[1..]);
        return Silent;
      }
      var k := ReadMore(head, readed);
      ghost var after := head[1..1 + readed + k];
      if k == 0 {
        NotFound(before, socket.Data(), head[1..]);
        return Failed;
      }
      assert head[1 + readed..1 + readed + k] == after[readed..];
      assert after[..readed] == before;
      var ending := LengthEnding(head, 1 + readed, k);
      if ending > 0 {
        r := Report(head, readed, k, ending);
      } else {
        NoEndJoin(after, readed);
        r := DoReadLen(head, readed + k);
      }
    }

    /** What do_read_len reports when the field ends among the k bytes it has just read. */
    method Report(head: array<Byte>, readed: nat, k: nat, ending: nat) returns (r: LenResult)
      requires head.Length == 5 && readed + k <= 4 && NoEnd(head[1..1 + readed])
      requires ending == Ending(head[1 + readed..1 + readed + k]) > 0
      ensures ReadsLength(head[1..1 + readed + k] + socket.Data(), head[1..], socket.Data(), r)
    {
      var lenSize := readed + ending;
      var len := DecLen(head[1..1 + lenSize]);
      r := Got(len, lenSize, readed + k);
      ReportIs(head[..], readed, k, ending, socket.Data());
    }

    /** One read into the rest of the length buffer. */
    method ReadMore(head: array<Byte>, readed: nat) returns (k: nat)
      requires head.Length == 5 && readed < 4
      modifies head, socket
      ensures head[0] == old(head[0]) && readed + k <= 4
      ensures head[1..1 + readed] == old(head[1..1 + readed])
      ensures head[1..1 + readed + k] + socket.Data() == old(head[1..1 + readed] + socket.Data())
      ensures k == 0 <==> old(socket.Data()) == []
    {
      var bs := socket.ReadSome(4 - readed);
      k := |bs|;
      Store(head, 1 + readed, bs);
      ghost var before := old(head[1..1 + readed]);
      assert head[1..1 + readed + k] == before + bs;
      assert before + bs + socket.Data() == before + (bs + socket.Data());
    }

    /** The first read of a frame: up to five bytes of what is unread, from the surplus of
        the last frame if there is any. */
    method ReadHead(head: array<Byte>) returns (n: nat)
      requires head.Length == 5
      modifies head, this`carry, socket
      ensures n <= 5 && head[..n] + Unread() == old(Unread())
      ensures n == 0 <==> old(Unread()) == []
      ensures n == 5 || carry == []
    {
      var bs;
      if carry != [] {
        n := if |carry| < 5 then |carry| else 5;
        bs := carry[..n];
        carry := carry[n..];
      } else {
        bs := socket.ReadSome(5);
        n := |bs|;
      }
      Store(head, 0, bs);
      assert head[..n] == bs;
      assert bs + Unread() == old(Unread());
    }

    /** do_read_remainder: the frame of the given size, have bytes of which are in head;
        what is read beyond it is kept. */
    method ReadRemainder(head: array<Byte>, have: nat, total: nat) returns (frame: Option<seq<Byte>>)
      requires head.Length == 5 && have <= 5
      modifies this`carry, socket
      ensures var s := old(head[..have] + Unread());
              if total <= |s| then frame == Some(s[..total]) && Unread() == s[total..] else frame == None
    {
      ghost var s := head[..have] + Unread();
      if total <= have {
        assert head[..total] == s[..total];
        assert head[total..have] + carry + socket.Data() == s[total..];
        carry := head[total..have] + carry;
        return Some(head[..total]);
      }
      var need := total - have;
      if need <= |carry| {
        assert head[..have] + carry[..need] == s[..total];
        frame := Some(head[..have] + carry[..need]);
        carry := carry[need..];
        assert Unread() == s[total..];
        return;
      }
      var kept := carry;
      carry := [];
      var rest := socket.ReadFull(need - |kept|);
      assert s == head[..have] + kept + rest + Unread();
      if |rest| < need - |kept| {
        return None;
      }
      return Some(head[..have] + kept + rest);
    }

    /** The frame's length when its field ends among the n bytes in head; 0 otherwise. */
    method LengthInHead(head: array<Byte>, n: nat) returns (total: nat)
      requires head.Length == 5 && 1 <= n <= 5
      ensures var s := head[..n] + Unread();
              if Ending(head[1..n]) == 0 then total == 0
              else var w := FieldWidth(s); w > 0 && total == 1 + w + FieldValue(s[1..1 + w])
    {
      ghost var s := head[..n] + Unread();
      ghost var p := head[1..n];
      assert head[..n] == [head[0]] + p && s[1..] == p + Unread();
      total := 0;
      if n > 1 {
        var ending := LengthEnding(head, 1, n - 1);
        assert head[1..1 + (n - 1)] == p;
        if ending > 0 {
          var len := DecLen(head[1..1 + ending]);
          assert head[1..1 + ending] == p[..ending];
          FieldInHead(s, p, ending);
          total := 1 + ending + len;
        }
      }
    }

    /** The length of the frame whose first n bytes are in head: from them, or by
        do_read_len. */
    method ReadLength(head: array<Byte>, n: nat) returns (r: Heading)
      requires head.Length == 5 && 1 <= n <= 5 && (n == 5 || carry == [])
      modifies head, socket
      ensures LengthRead(old(head[..n] + Unread()), head[..], Unread(), r)
    {
      var total := LengthInHead(head, n);
      NoEnding(head[1..n]);
      if total > 0 {
        assert head[..][..n] == head[..n];
        return Known(n, total);
      }
      if n == 5 {
        r := NoLength(head);
      } else {
        r := LengthFromSocket(head, n);
      }
    }

    /** Four continuation bytes: do_read_len is called and does nothing. */
    method NoLength(head: array<Byte>) returns (r: Heading)
      requires head.Length == 5 && NoEnd(head[1..5])
      modifies head, socket
      ensures r == NoField(true) && FieldWidth(old(head[..5] + Unread())) == 0
    {
      ghost var p := head[1..5];
      ghost var s := head[..5] + Unread();
      assert Take(s[1..], 4) == p && Take(p + socket.Data(), 4) == p;
      NoEnding(p);
      assert head[1..1 + 4] == p;
      var got := DoReadLen(head, 4);
      return HeadingOf(got);
    }

    method LengthFromSocket(head: array<Byte>, n: nat) returns (r: Heading)
      requires head.Length == 5 && 1 <= n <= 4 && carry == [] && NoEnd(head[1..n])
      modifies head, socket
      ensures LengthRead(old(head[..n] + Unread()), head[..], Unread(), r)
    {
      ghost var first, p, rest := head[0], head[1..n], socket.Data();
      ghost var s := head[..n] + Unread();
      FirstApart(head[..], n, rest);
      assert head[1..1 + (n - 1)] == p;
      var got := DoReadLen(head, n - 1);
      r := HeadingOf(got);
      ghost var data, left := head[1..], socket.Data();
      Reported(s, first, p + rest, data, left, got);
      assert head[..] == [first] + data;
      assert Unread() == [] + left;
    }

    /** do_read_message: hands on the next frame of what is unread, byte for byte, and
        leaves exactly the rest unread, however the bytes arrive. Without a further frame it
        hangs behind four continuation bytes, and closes the session otherwise. */
    method ReadMessage() returns (r: Reading)
      modifies this`carry, socket
      ensures var s := old(Unread());
              match FrameLength(s)
              case Some(n) => r == Next(s[..n]) && Unread() == s[n..]
              case None => r == Ended(s)
    {
      var head := new Byte[5](_ => 0);
      var n := ReadHead(head);
      if n == 0 {
        return Error;
      }
      var h := ReadLength(head, n);
      match h {
        case NoField(silent) =>
          return if silent then Hangs else Error;
        case Known(have, total) =>
          assert head[..][..have] == head[..have];
          var frame := ReadRemainder(head, have, total);
          return if frame == None then Error else Next(frame.value);
      }
    }

    /** Reading on until there is no further frame. */
    method ReadAll() returns (frames: seq<seq<Byte>>, end: Reading)
      modifies this`carry, socket
      ensures frames == Frames(old(Unread())) && end == Ended(Rest(old(Unread())))
    {
      frames := [];
      ghost var s := Unread();
      ghost var left := s;
      while true
        invariant Unread() == left && frames + Frames(left) == Frames(s) && Rest(left) == Rest(s)
        decreases |left|
      {
        var r := ReadMessage();
        if !r.Next? {
          return frames, r;
        }
        Associate(frames, [r.frame], Frames(Unread()));
        frames := frames + [r.frame];
        left := Unread();
      }
    }
  }

  /** For every list of frames and every way to cut their bytes into chunks, the reader
      hands on exactly these frames. */
  method ReadFrames(fs: seq<seq<Byte>>, chunks: seq<seq<Byte>>) returns (frames: seq<seq<Byte>>)
    requires forall f :: f in fs ==> IsFrame(f)
    requires Flat(chunks) == Flat(fs)
    ensures frames == fs
  {
    var socket := new Socket(chunks);
    var session := new MqttSession(socket);
    FramesOfFlat(fs);
    assert session.Unread() == Flat(fs);
    var end;
    frames, end := session.ReadAll();
  }

  lemma FirstApart(h: seq<Byte>, n: nat, rest: seq<Byte>)
    requires 1 <= n <= |h|
    ensures h[..n] + ([] + rest) == [h[0]] + (h[1..n] + rest)
  {
  }

  /** What do_read_len reports is the width and the value of the field behind the first
      byte. */
  lemma Reported(s: seq<Byte>, first: Byte, behind: seq<Byte>, data: seq<Byte>, left: seq<Byte>, got: LenResult)
    requires s == [first] + behind && ReadsLength(behind, data, left, got)
    ensures LengthRead(s, [first] + data, [] + left, HeadingOf(got))
  {
    assert s[1..] == behind;
    if got.Got? {
      FieldBehindHead(s, got.lenSize);
      InHeadBehind(s, first, behind, data, left, got.bufferSize);
    }
  }

  lemma InHeadBehind(s: seq<Byte>, first: Byte, behind: seq<Byte>, data: seq<Byte>, left: seq<Byte>, b: nat)
    requires s == [first] + behind && b <= |data| && b <= |behind| && data[..b] == behind[..b] && left == behind[b..]
    ensures InHead(s, [first] + data, [] + left, 1 + b)
  {
    HeadAndBehind(first, data, behind, b);
  }

  lemma HeadAndBehind(first: Byte, data: seq<Byte>, behind: seq<Byte>, b: nat)
    requires b <= |data| && b <= |behind| && data[..b] == behind[..b]
    ensures ([first] + data)[..1 + b] + ([] + behind[b..]) == [first] + behind
  {
    assert ([first] + data)[..1 + b] == [first] + data[..b];
    assert behind == behind[..b] + behind[b..];
  }

  /** Four continuation bytes, or fewer at the end of the stream. */
  lemma NotFound(before: seq<Byte>, rest: seq<Byte>, data: seq<Byte>)
    requires NoEnd(before) && |before| <= 4 && (|before| == 4 || rest == [])
    ensures ReadsLength(before + rest, data, rest, if |before| == 4 then Silent else Failed)
  {
    assert Take(before + rest, 4) == before;
    NoEnding(before);
  }

  lemma FieldInHead(s: seq<Byte>, p: seq<Byte>, ending: nat)
    requires |p| <= 4 && s != [] && p <= s[1..] && ending == Ending(p) > 0
    ensures FieldWidth(s) == ending && DecLenSpec(p[..ending]) % 0x1_0000_0000 == FieldValue(s[1..1 + ending])
  {
    EndingKept(p, Take(s[1..], 4));
    FieldSlice(s, p, ending);
    ShortField(p[..ending]);
  }

  lemma FieldSlice(s: seq<Byte>, p: seq<Byte>, w: nat)
    requires s != [] && p <= s[1..] && w <= |p|
    ensures s[1..1 + w] == p[..w]
  {
    assert s[1..1 + w] == s[1..][..w];
  }

  /** More bytes behind the end of a field do not change where it ends. */
  lemma EndingKept(p: seq<Byte>, all: seq<Byte>)
    requires p <= all && Ending(p) > 0
    ensures Ending(all) == Ending(p)
  {
    var e := Ending(p);
    assert p[..e][e - 1] == p[e - 1];
    forall j | 0 <= j < e - 1 ensures all[j] >= 0x80 {
      assert p[..e][j] >= 0x80;
    }
    EndingIs(all, e);
  }

  lemma FieldBehindHead(s: seq<Byte>, w: nat)
    requires s != [] && w == Ending(Take(s[1..], 4)) > 0
    ensures FieldWidth(s) == w && DecLenSpec(s[1..][..w]) == FieldValue(s[1..1 + w])
  {
    assert s[1..][..w] == s[1..1 + w];
    ShortField(s[1..1 + w]);
  }

  /** The field ends among the bytes that have been read. */
  lemma Found(data: seq<Byte>, after: seq<Byte>, rest: seq<Byte>, w: nat)
    requires |after| <= 4 && |data| == 4 && data[..|after|] == after && Ending(after) == w > 0
    ensures ReadsLength(after + rest, data, rest, Got(DecLenSpec(after[..w]) % 0x1_0000_0000, w, |after|))
  {
    var s := after + rest;
    EndingKept(after, Take(s, 4));
    assert s[..|after|] == after && s[|after|..] == rest;
    assert s[..w] == after[..w];
    ShortField(after[..w]);
  }

  lemma ReportIs(h: seq<Byte>, readed: nat, k: nat, ending: nat, left: seq<Byte>)
    requires |h| == 5 && readed + k <= 4 && NoEnd(h[1..1 + readed])
    requires ending == Ending(h[1 + readed..1 + readed + k]) > 0
    ensures ReadsLength(h[1..1 + readed + k] + left, h[1..], left,
              Got(DecLenSpec(h[1..1 + readed + ending]) % 0x1_0000_0000, readed + ending, readed + k))
  {
    var data, after := h[1..], h[1..1 + readed + k];
    assert data[..readed + k] == after;
    assert after[..readed] == h[1..1 + readed] && after[readed..] == h[1 + readed..1 + readed + k];
    assert after[..readed + ending] == h[1..1 + readed + ending];
    EndingBehind(after[..readed], after[readed..], after);
    Found(data, after, left, readed + ending);
  }

  /** The bytes of a read arrive in the buffer. */
  method Store(a: array<Byte>, from: nat, bs: seq<Byte>)
    requires from + |bs| <= a.Length
    modifies a
    ensures a[..] == old(a[..from]) + bs + old(a[from + |bs|..])
  {
    forall i | 0 <= i < |bs| { a[from + i] := bs[i]; }
  }

  predicate NoEnd(data: seq<Byte>) {
    forall i :: 0 <= i < |data| ==> data[i] >= 0x80
  }

  lemma NoEndJoin(data: seq<Byte>, k: nat)
    requires k <= |data| && NoEnd(data[..k]) && Ending(data[k..]) == 0
    ensures NoEnd(data)
  {
    NoEnding(data[k..]);
    assert data == data[..k] + data[k..];
  }

  lemma NoEnding(data: seq<Byte>)
    ensures Ending(data) == 0 <==> NoEnd(data)
  {
    var e := Ending(data);
    if e > 0 { assert data[..e][e - 1] == data[e - 1]; }
  }

  lemma {:induction false} EndingIs(data: seq<Byte>, e: nat)
    requires 1 <= e <= |data| && data[e - 1] < 0x80 && forall j :: 0 <= j < e - 1 ==> data[j] >= 0x80
    ensures Ending(data) == e
  {
    if e > 1 {
      EndingIs(data[1..], e - 1);
    }
  }

  /** Bytes that end the field behind others that do not. */
  lemma EndingBehind(before: seq<Byte>, bs: seq<Byte>, all: seq<Byte>)
    requires NoEnd(before) && Ending(bs) > 0 && before + bs <= all
    ensures Ending(all) == |before| + Ending(bs)
  {
    var e := Ending(bs);
    forall j | 0 <= j < |before| + e ensures all[j] == (before + bs)[j] { }
    assert bs[..e][e - 1] == bs[e - 1];
    forall j | |before| <= j < |before| + e - 1 ensures all[j] >= 0x80 {
      assert bs[..e][j - |before|] >= 0x80;
    }
    EndingIs(all, |before| + e);
  }

  /** A field of at most four bytes is not cut by decLen. */
  lemma ShortField(f: seq<Byte>)
    requires IsField(f) && |f| <= 4
    ensures DecLenSpec(f) == FieldValue(f) && DecLenSpec(f) % 0x1_0000_0000 == FieldValue(f)
  {
    DecLenOfField(f);
    ValueBound(f);
    assert Pow128(4) == 0x1000_0000 && Pow128(3) <= Pow128(4) && Pow128(2) <= Pow128(3) && Pow128(1) <= Pow128(2);
  }

  lemma {:induction false} ValueBound(f: seq<Byte>)
    ensures FieldValue(f) < Pow128(|f|)
  {
    if f != [] {
      ValueBound(f[1..]);
    }
  }
}
