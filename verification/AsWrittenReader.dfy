/** do_read_message of src/MqttSession.hpp exactly as it stands: what it hands to parseMqtt,
    depending on how many bytes its reads happen to deliver. */
module AsWrittenReader {
  import opened Basics
  import opened RemainingLength
  import opened Framing
  import opened SessionReader

  /** Hands: the frame that is parsed and the number of bytes taken from the stream. Waits:
      no frame yet. Undefined: an access outside a buffer. */
  datatype Outcome = Hands(frame: seq<Byte>, consumed: nat) | Waits | Undefined

  /** The first read delivers n bytes. With n > 1 the length is looked for in n bytes behind
      the header byte, one more than there are; the buffer holds a zero there, or ends. */
  function AfterHead(s: seq<Byte>, n: nat): Outcome
    requires 2 <= n <= 5 && n <= |s|
  {
    var seen := s[1..n] + if n < 5 then [0] else [];
    var e := Ending(seen);
    if e == 0 then Undefined
    else
      var end := n + DecLenSpec(seen[..e]) % 0x1_0000_0000;
      if end <= |s| then Hands(s[..end], end) else Waits
  }

  /** With n = 1, do_read_len reads b bytes until the field is complete. Of the 1 + b bytes
      in the head only b are copied, and the body is put behind 1 + b. */
  function AfterLength(s: seq<Byte>, b: nat): Outcome
    requires 1 + b <= |s|
  {
    var w := FieldWidth(s);
    if w == 0 then Waits
    else
      var len := FieldValue(s[1..1 + w]);
      if b > 1 + w + len || (len > 0 && b > w) then Undefined
      else if 1 + b + len > |s| then Waits
      else if len == 0 then Hands(s[..b] + Zeros(1 + w - b), 1 + b)
      else Hands(s[..b] + Zeros(1 + w - b) + s[1 + b..1 + b + len], 1 + b + len)
  }

  function ReadAsWritten(s: seq<Byte>, n: nat, b: nat): Outcome
    requires 1 <= n <= 5 && n <= |s| && (n == 1 ==> 1 + b <= |s|)
  {
    if n > 1 then AfterHead(s, n) else AfterLength(s, b)
  }

  lemma {:induction false} ValueOfMore(x: seq<Byte>, y: seq<Byte>)
    ensures FieldValue(x) <= FieldValue(x + y)
    ensures FieldValue(x + [0]) == FieldValue(x)
  {
    if x == [] {
      assert FieldValue([0]) == 0;
      assert x + [0] == [0];
    } else {
      ValueOfMore(x[1..], y);
      assert (x + y)[1..] == x[1..] + y;
      assert (x + [0])[1..] == x[1..] + [0];
    }
  }

  /** When the field is complete within the first read, the body is taken to start behind
      whatever was read. */
  lemma HeadHasField(s: seq<Byte>, n: nat)
    requires 2 <= n <= 5 && n <= |s| && 0 < FieldWidth(s) <= n - 1
    ensures var end := n + FieldValue(s[1..1 + FieldWidth(s)]);
            AfterHead(s, n) == if end <= |s| then Hands(s[..end], end) else Waits
  {
    var w := FieldWidth(s);
    var field := s[1..1 + w];
    var seen := s[1..n] + if n < 5 then [0] else [];
    assert seen == field + seen[w..];
    EndingOfField(field, seen[w..]);
    assert seen[..w] == field;
    ShortField(field);
  }

  /** When it is not, the spurious zero ends it early: the length is cut short. */
  lemma HeadLacksField(s: seq<Byte>, n: nat)
    requires 2 <= n <= 5 && n <= |s| && FieldWidth(s) > n - 1
    ensures var end := n + FieldValue(s[1..n]);
            AfterHead(s, n) == if end <= |s| then Hands(s[..end], end) else Waits
    ensures FieldValue(s[1..n]) <= FieldValue(s[1..1 + FieldWidth(s)])
  {
    var w := FieldWidth(s);
    var field, part := s[1..1 + w], s[1..n];
    var seen := part + [0];
    assert field == part + field[n - 1..];
    forall i | 0 <= i < |part| ensures part[i] >= 0x80 { assert part[i] == field[i]; }
    assert IsField(seen) && seen + [] == seen;
    EndingOfField(seen, []);
    assert seen[..n] == seen;
    ShortField(seen);
    ValueOfMore(part, field[n - 1..]);
  }

  /** As written, the first frame of a stream is handed on unchanged, with nothing else
      taken from the stream, exactly when the first read ends with the length field, or
      delivers the header byte alone, the following reads end with the length field, and
      its last byte is zero. */
  lemma FirstFrameIff(s: seq<Byte>, n: nat, b: nat)
    requires FrameLength(s).Some? && 1 <= n <= 5 && n <= |s|
    requires n == 1 ==> FieldWidth(s) <= b <= 4 && 1 + b <= |s|
    ensures var total := FrameLength(s).value;
            ReadAsWritten(s, n, b) == Hands(s[..total], total) <==>
              n == 1 + FieldWidth(s) || (n == 1 && b == FieldWidth(s) && s[b] == 0)
  {
    var w := FieldWidth(s);
    var total := FrameLength(s).value;
    if n > 1 {
      if w <= n - 1 {
        HeadHasField(s, n);
      } else {
        HeadLacksField(s, n);
      }
    } else {
      LengthAlone(s, b);
    }
  }

  lemma LengthAlone(s: seq<Byte>, b: nat)
    requires FrameLength(s).Some? && FieldWidth(s) <= b <= 4 && 1 + b <= |s|
    ensures var total := FrameLength(s).value;
            AfterLength(s, b) == Hands(s[..total], total) <==> b == FieldWidth(s) && s[b] == 0
  {
    var w := FieldWidth(s);
    var len := FieldValue(s[1..1 + w]);
    var total := FrameLength(s).value;
    if b == w {
      var frame := s[..w] + [0] + s[1 + w..total];
      assert Zeros(1) == [0];
      assert s[..total] == s[..w] + [s[w]] + s[1 + w..total];
      assert frame[w] == 0 && s[..total][w] == s[w];
      assert len == 0 ==> s[..w] + [0] == frame;
    }
  }

  // ----- what do_read_len reports

  /** The callback of do_read_len, step by step: the message buffer is as long as header
      byte, width and length together; as many bytes of the head are copied into it as were
      read behind the header byte; the body is read to the place behind all that was read. */
  function Callback(head: seq<Byte>, got: LenResult, left: seq<Byte>): Outcome
    requires got.Got? ==> got.bufferSize <= |head|
  {
    if !got.Got? then Waits
    else
      var size, from := 1 + got.lenSize + got.len, 1 + got.bufferSize;
      if got.bufferSize > size then Undefined
      else
        var pdata := head[..got.bufferSize] + Zeros(size - got.bufferSize);
        if got.len == 0 then Hands(pdata, from)
        else if from + got.len > size then Undefined
        else if got.len > |left| then Waits
        else Hands(pdata[..from] + left[..got.len] + pdata[from + got.len..], from + got.len)
  }

  /** AfterLength is what the callback makes of what do_read_len reports. */
  lemma CallbackIsAfterLength(s: seq<Byte>, data: seq<Byte>, left: seq<Byte>, got: LenResult)
    requires s != [] && got.Got? && ReadsLength(s[1..], data, left, got)
    ensures Callback([s[0]] + data, got, left) == AfterLength(s, got.bufferSize)
  {
    var w, b := got.lenSize, got.bufferSize;
    FieldBehindHead(s, w);
    HeadIsFront(s, data, b);
    AfterLengthIs(s, [s[0]] + data, left, w, b, got.len);
  }

  lemma AfterLengthIs(s: seq<Byte>, head: seq<Byte>, left: seq<Byte>, w: nat, b: nat, len: nat)
    requires 0 < w <= b && 1 + b <= |s| && b <= |head| && head[..b] == s[..b] && left == s[1..][b..]
    requires FieldWidth(s) == w && FieldValue(s[1..1 + w]) == len
    ensures Callback(head, Got(len, w, b), left) == AfterLength(s, b)
  {
    if len > 0 && b == w {
      BodyBehind(s, b, left, len);
      assert 1 + b + len <= |s| <==> len <= |left|;
      assert Zeros(1 + w + len - b) == Zeros(1 + len);
    }
  }

  lemma HeadIsFront(s: seq<Byte>, data: seq<Byte>, b: nat)
    requires s != [] && b <= |data| && b <= |s[1..]| && data[..b] == s[1..][..b]
    ensures ([s[0]] + data)[..b] == s[..b]
  {
    forall i | 0 < i < b ensures data[i - 1] == s[i] {
      assert data[..b][i - 1] == s[1..][..b][i - 1];
    }
  }

  lemma BodyBehind(s: seq<Byte>, b: nat, left: seq<Byte>, len: nat)
    requires s != [] && b <= |s[1..]| && left == s[1..][b..]
    ensures var pdata := s[..b] + Zeros(1 + len);
            && pdata[..1 + b] == s[..b] + Zeros(1) && pdata[1 + b + len..] == []
            && (len <= |left| ==> left[..len] == s[1 + b..1 + b + len])
  {
  }

  // ----- a whole stream

  /** What the reads deliver for one message: n bytes at first and, if n is 1, b more until
      the length field is complete. */
  datatype Reads = Reads(n: nat, b: nat)

  /** Reads that are possible at the front of a stream. */
  predicate CanDeliver(s: seq<Byte>, r: Reads) {
    1 <= r.n <= 5 && r.n <= |s| && (r.n == 1 ==> FieldWidth(s) <= r.b <= 4 && 1 + r.b <= |s|)
  }

  /** The outcomes for one message after the other: the next is read from behind the bytes
      that were taken, until one is not handed on. */
  function StreamAsWritten(s: seq<Byte>, rs: seq<Reads>): seq<Outcome>
    decreases rs
  {
    if rs == [] then []
    else if !CanDeliver(s, rs[0]) then [Waits]
    else
      var o := ReadAsWritten(s, rs[0].n, rs[0].b);
      if o.Hands? && o.consumed <= |s| then [o] + StreamAsWritten(s[o.consumed..], rs[1..]) else [o]
  }

  function AsIntended(fs: seq<seq<Byte>>): seq<Outcome> {
    if fs == [] then [] else [Hands(fs[0], |fs[0]|)] + AsIntended(fs[1..])
  }

  /** The reads end with the length field: the first does, or it brings the header byte alone,
      the next ones do, and the last byte of the field is 0. */
  predicate EndsWithField(f: seq<Byte>, r: Reads) {
    r.n == 1 + FieldWidth(f) || (r.n == 1 && r.b == FieldWidth(f) && r.b < |f| && f[r.b] == 0)
  }

  /** Reads that are possible at each frame of a stream when all before it went well. */
  ghost predicate CanDeliverAll(fs: seq<seq<Byte>>, rs: seq<Reads>)
    requires |rs| == |fs|
  {
    fs != [] ==> CanDeliver(Flat(fs), rs[0]) && CanDeliverAll(fs[1..], rs[1..])
  }

  lemma FrontFrame(f: seq<Byte>, more: seq<Byte>)
    requires IsFrame(f)
    ensures FrameLength(f + more) == Some(|f|) && FieldWidth(f + more) == FieldWidth(f) < |f|
  {
    FrameAtFront(f, more);
    var w :| 1 <= w <= 4 && FrameWith(f, w);
    FieldInFront(f, w);
    SliceOfFront(f, more, 1, 1 + w);
    FieldInFront(f + more, w);
  }

  lemma FirstOutcomeIff(f: seq<Byte>, more: seq<Byte>, r: Reads)
    requires IsFrame(f) && CanDeliver(f + more, r)
    ensures ReadAsWritten(f + more, r.n, r.b) == Hands(f, |f|) <==> EndsWithField(f, r)
  {
    FrontFrame(f, more);
    FirstFrameIff(f + more, r.n, r.b);
    assert (f + more)[..|f|] == f;
    assert r.b < |f| ==> (f + more)[r.b] == f[r.b];
  }

  /** As written, a stream of frames is handed on frame by frame and byte by byte, with
      nothing lost, exactly when at every one of its frames the reads end with the length
      field. */
  lemma {:induction false} StreamIff(fs: seq<seq<Byte>>, rs: seq<Reads>)
    requires |rs| == |fs| && (forall f :: f in fs ==> IsFrame(f)) && CanDeliverAll(fs, rs)
    ensures StreamAsWritten(Flat(fs), rs) == AsIntended(fs) <==> forall i :: 0 <= i < |fs| ==> EndsWithField(fs[i], rs[i])
    decreases |fs|
  {
    if fs != [] {
      var f, more, r := fs[0], Flat(fs[1..]), rs[0];
      assert f in fs && Flat(fs) == f + more;
      FirstOutcomeIff(f, more, r);
      var o := ReadAsWritten(f + more, r.n, r.b);
      if o == Hands(f, |f|) {
        assert (f + more)[|f|..] == more;
        StreamIff(fs[1..], rs[1..]);
        assert StreamAsWritten(Flat(fs), rs) == [o] + StreamAsWritten(more, rs[1..]);
        SplitAll(fs, rs);
        OneByOne(o, StreamAsWritten(more, rs[1..]), AsIntended(fs[1..]));
      } else {
        assert StreamAsWritten(Flat(fs), rs)[0] == o && AsIntended(fs)[0] == Hands(f, |f|);
        assert !EndsWithField(fs[0], rs[0]);
      }
    }
  }

  lemma SplitAll(fs: seq<seq<Byte>>, rs: seq<Reads>)
    requires |rs| == |fs| > 0
    ensures (forall i :: 0 <= i < |fs| ==> EndsWithField(fs[i], rs[i])) <==>
              EndsWithField(fs[0], rs[0]) && forall i :: 0 <= i < |fs[1..]| ==> EndsWithField(fs[1..][i], rs[1..][i])
  {
    forall i | 0 <= i < |fs| - 1 ensures fs[1..][i] == fs[i + 1] && rs[1..][i] == rs[i + 1] { }
    if EndsWithField(fs[0], rs[0]) && forall i :: 0 <= i < |fs[1..]| ==> EndsWithField(fs[1..][i], rs[1..][i]) {
      forall i | 0 <= i < |fs| ensures EndsWithField(fs[i], rs[i]) {
        assert i > 0 ==> EndsWithField(fs[1..][i - 1], rs[1..][i - 1]);
      }
    }
  }

  lemma OneByOne(o: Outcome, x: seq<Outcome>, y: seq<Outcome>)
    ensures [o] + x == [o] + y <==> x == y
  {
    assert ([o] + x)[1..] == x && ([o] + y)[1..] == y;
  }
}
