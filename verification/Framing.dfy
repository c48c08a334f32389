/** What a byte stream says: the frames it consists of, independent of how it arrives. */
module Framing {
  import opened Basics
  import opened RemainingLength

  /** A frame: a header byte, a length field of at most four bytes, and as many bytes as
      the field says. */
  ghost predicate IsFrame(f: seq<Byte>) {
    exists w :: 1 <= w <= 4 && FrameWith(f, w)
  }

  ghost predicate FrameWith(f: seq<Byte>, w: nat) {
    1 + w <= |f| && IsField(f[1..1 + w]) && |f| == 1 + w + FieldValue(f[1..1 + w])
  }

  /** length_ending: the number of bytes up to and with the first one below 128, 0 if there
      is none. */
  function Ending(data: seq<Byte>): (e: nat)
    ensures e <= |data|
    ensures e > 0 ==> IsField(data[..e])
    ensures e == 0 ==> forall i :: 0 <= i < |data| ==> data[i] >= 0x80
  {
    if data == [] then 0
    else if data[0] < 0x80 then 1
    else
      var e := Ending(data[1..]);
      if e == 0 then
        assert forall i :: 0 < i < |data| ==> data[i] == data[1..][i - 1];
        0
      else
        assert data[..e + 1] == [data[0]] + data[1..][..e];
        e + 1
  }

  function Take(s: seq<Byte>, n: nat): seq<Byte> { if n <= |s| then s[..n] else s }

  /** The width of the length field behind the first byte, 0 if it is not complete within
      four bytes. */
  function FieldWidth(s: seq<Byte>): (w: nat)
    ensures w <= 4 && (w > 0 ==> 1 + w <= |s| && IsField(s[1..1 + w]))
  {
    if s == [] then 0
    else
      var w := Ending(Take(s[1..], 4));
      assert w > 0 ==> Take(s[1..], 4)[..w] == s[1..1 + w];
      w
  }

  /** The length of the first frame, if it is all there. */
  function FrameLength(s: seq<Byte>): (r: Option<nat>)
    ensures r.Some? ==> 0 < r.value <= |s|
  {
    var w := FieldWidth(s);
    if w == 0 then None
    else
      var n := 1 + w + FieldValue(s[1..1 + w]);
      if n <= |s| then Some(n) else None
  }

  function Frames(s: seq<Byte>): seq<seq<Byte>>
    decreases |s|
  {
    match FrameLength(s)
    case None => []
    case Some(n) => [s[..n]] + Frames(s[n..])
  }

  function Rest(s: seq<Byte>): seq<Byte>
    decreases |s|
  {
    match FrameLength(s)
    case None => s
    case Some(n) => Rest(s[n..])
  }

  function Flat(chunks: seq<seq<Byte>>): seq<Byte> {
    if chunks == [] then [] else chunks[0] + Flat(chunks[1..])
  }

  /** No byte is lost or duplicated. */
  lemma FramesConserve(s: seq<Byte>)
    ensures Flat(Frames(s)) + Rest(s) == s
    ensures forall f :: f in Frames(s) ==> IsFrame(f)
  {
    BytesConserved(s);
    FramesAreFrames(s);
  }

  lemma {:induction false} BytesConserved(s: seq<Byte>)
    ensures Flat(Frames(s)) + Rest(s) == s
    decreases |s|
  {
    var r := FrameLength(s);
    if r.Some? {
      var f, t := s[..r.value], s[r.value..];
      BytesConserved(t);
      FramesFirst(s, r.value);
      ConserveOne(s, f, t, Frames(t), Rest(t));
    }
  }

  lemma {:induction false} FramesAreFrames(s: seq<Byte>)
    ensures forall f :: f in Frames(s) ==> IsFrame(f)
    decreases |s|
  {
    var r := FrameLength(s);
    if r.Some? {
      FramesAreFrames(s[r.value..]);
      FrontIsFrame(s, r.value);
      FramesFirst(s, r.value);
    }
  }

  lemma FramesFirst(s: seq<Byte>, n: nat)
    requires FrameLength(s) == Some(n)
    ensures Frames(s) == [s[..n]] + Frames(s[n..]) && Rest(s) == Rest(s[n..])
  {
  }

  lemma ConserveOne(s: seq<Byte>, f: seq<Byte>, t: seq<Byte>, fs: seq<seq<Byte>>, rest: seq<Byte>)
    requires s == f + t && Flat(fs) + rest == t
    ensures Flat([f] + fs) + rest == s
  {
    FlatCons(f, fs);
    Associate(f, Flat(fs), rest);
  }

  lemma FlatCons(f: seq<Byte>, fs: seq<seq<Byte>>)
    ensures Flat([f] + fs) == f + Flat(fs)
  {
    assert ([f] + fs)[1..] == fs;
  }

  lemma FrontIsFrame(s: seq<Byte>, n: nat)
    requires FrameLength(s) == Some(n)
    ensures IsFrame(s[..n])
  {
    var w := FieldWidth(s);
    assert s[..n][1..1 + w] == s[1..1 + w];
    assert FrameWith(s[..n], w);
  }

  lemma {:induction false} EndingOfField(f: seq<Byte>, more: seq<Byte>)
    requires IsField(f)
    ensures Ending(f + more) == |f|
    decreases |f|
  {
    if |f| > 1 {
      assert f[0] >= 128 && IsField(f[1..]);
      EndingOfField(f[1..], more);
      assert (f + more)[1..] == f[1..] + more;
    }
  }

  lemma EndingWithin(f: seq<Byte>, t: seq<Byte>)
    requires IsField(f) && f <= t
    ensures Ending(t) == |f|
  {
    assert t == f + t[|f|..];
    EndingOfField(f, t[|f|..]);
  }

  lemma FieldInFront(s: seq<Byte>, w: nat)
    requires 1 <= w <= 4 && 1 + w <= |s| && IsField(s[1..1 + w])
    ensures FieldWidth(s) == w
  {
    var t := Take(s[1..], 4);
    assert t[..w] == s[1..1 + w];
    EndingWithin(s[1..1 + w], t);
  }

  lemma SliceOfFront(f: seq<Byte>, more: seq<Byte>, i: nat, j: nat)
    requires i <= j <= |f|
    ensures (f + more)[i..j] == f[i..j]
  {
  }

  lemma FrameAtFront(f: seq<Byte>, more: seq<Byte>)
    requires IsFrame(f)
    ensures FrameLength(f + more) == Some(|f|)
  {
    var w :| 1 <= w <= 4 && FrameWith(f, w);
    SliceOfFront(f, more, 1, 1 + w);
    FieldInFront(f + more, w);
  }

  /** A stream made of frames consists of these frames. */
  lemma {:induction false} FramesOfFlat(fs: seq<seq<Byte>>)
    requires forall f :: f in fs ==> IsFrame(f)
    ensures Frames(Flat(fs)) == fs && Rest(Flat(fs)) == []
  {
    if fs != [] {
      var f, more := fs[0], Flat(fs[1..]);
      assert f in fs;
      FrameAtFront(f, more);
      assert (f + more)[..|f|] == f && (f + more)[|f|..] == more;
      assert forall g :: g in fs[1..] ==> g in fs;
      FramesOfFlat(fs[1..]);
      assert fs == [f] + fs[1..];
    }
  }
}
