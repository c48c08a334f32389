/** The receive window against an arbitrary peer: any sequence of packets of the exchange, of
    publications begun by the endpoint itself, and of finished or failed writes. The window
    that the PUBREL callback and the PUBCOMP handler address is a parameter; with the one the
    source names, they too reach the receive window. */
module ReceiveWindow {
  import opened Basics
  import opened Qos2Client

  datatype Input = Got(packet: Packet) | Begin(item: Item) | WriteDone(ok: bool)

  /** What is visible from outside: a QoS 2 PUBLISH arrived, an identifier left the window
      with a completed PUBCOMP, or it was erased by a PUBCOMP of the peer. */
  datatype Sign = Arrived(item: Item) | Gone(id: Int16) | Erased(id: Int16)

  function FeedWith<T>(keep: Message -> T, w: Window, s: SideOf<T>, x: Input): Option<(SideOf<T>, seq<Sign>)> {
    match x
    case Got(p) =>
      var t := DeliverSpec(keep, w, s, p);
      var id := IdOf(p);
      Some((t, if p.Publish? && p.item.msg.qos == 2 then [Arrived(p.item)]
               else if id in s.rq && id !in t.rq then [Erased(id)] else []))
    case Begin(it) => Some((StartSpec(keep, s, it), []))
    case WriteDone(ok) =>
      if s.pending == [] then Some((s, []))
      else
        var id := IdOf(s.pending[0]);
        var t :- CompleteSpec(w, s, ok);
        Some((t, if id in s.rq && id !in t.rq then [Gone(id)] else []))
  }

  /** The endpoint and the signs so far after a sequence of inputs; None if a callback
      threw. */
  function TraceWith<T>(keep: Message -> T, w: Window, s: SideOf<T>, h: seq<Sign>, xs: seq<Input>)
    : Option<(SideOf<T>, seq<Sign>)>
    decreases xs
  {
    if xs == [] then Some((s, h))
    else
      var (t, more) :- FeedWith(keep, w, s, xs[0]);
      TraceWith(keep, w, t, h + more, xs[1..])
  }

  // With windows of whole messages.

  function Feed(w: Window, s: Side, x: Input): Option<(Side, seq<Sign>)> { FeedWith(Whole, w, s, x) }

  function Trace(w: Window, s: Side, h: seq<Sign>, xs: seq<Input>): Option<(Side, seq<Sign>)> {
    TraceWith(Whole, w, s, h, xs)
  }

  // ----- what the signs say, without reference to the window

  ghost predicate ArrivedAt(h: seq<Sign>, id: Int16, k: int) {
    0 <= k < |h| && h[k].Arrived? && h[k].item.id == id
  }

  predicate Leaves(x: Sign, id: Int16) { x == Gone(id) || x == Erased(id) }

  ghost predicate LeftBetween(h: seq<Sign>, id: Int16, lo: int, hi: int) {
    exists r :: lo < r < hi && 0 <= r < |h| && Leaves(h[r], id)
  }

  /** The arrival at k is the first of its identifier, or the first since it last left. */
  ghost predicate First(h: seq<Sign>, id: Int16, k: int) {
    ArrivedAt(h, id, k) && forall i :: i < k && ArrivedAt(h, id, i) ==> LeftBetween(h, id, i, k)
  }

  /** The last such arrival, if the identifier has not left since. */
  ghost predicate Current(h: seq<Sign>, id: Int16, k: int) {
    First(h, id, k) && !LeftBetween(h, id, k, |h|)
  }

  ghost function Stores(h: seq<Sign>, id: Int16): nat {
    if h == [] then 0
    else Stores(h[..|h| - 1], id) + if First(h, id, |h| - 1) then 1 else 0
  }

  /** How often a sign occurs. */
  function Count(h: seq<Sign>, x: Sign): nat {
    if h == [] then 0 else Count(h[..|h| - 1], x) + if h[|h| - 1] == x then 1 else 0
  }

  // ----- the window agrees

  ghost predicate Agrees(rq: map<Int16, Package>, h: seq<Sign>, id: Int16) {
    && (id in rq ==> exists k :: Current(h, id, k) && rq[id].msg == h[k].item.msg)
    && (id !in rq ==> forall i :: ArrivedAt(h, id, i) ==> LeftBetween(h, id, i, |h|))
    && Stores(h, id) == Count(h, Gone(id)) + Count(h, Erased(id)) + if id in rq then 1 else 0
  }

  lemma PrefixSame(h: seq<Sign>, x: Sign, id: Int16, k: int)
    requires k < |h|
    ensures First(h + [x], id, k) == First(h, id, k)
  {
    var g := h + [x];
    forall i, j | j <= |h| ensures LeftBetween(g, id, i, j) == LeftBetween(h, id, i, j) {
      if r :| i < r < j && 0 <= r < |g| && Leaves(g[r], id) { assert Leaves(h[r], id); }
      if r :| i < r < j && 0 <= r < |h| && Leaves(h[r], id) { assert Leaves(g[r], id); }
    }
  }

  lemma GoneMore(h: seq<Sign>, x: Sign, id: Int16, i: int)
    requires i < |h|
    ensures LeftBetween(h + [x], id, i, |h| + 1) <==> LeftBetween(h, id, i, |h|) || Leaves(x, id)
    ensures LeftBetween(h + [x], id, i, |h|) <==> LeftBetween(h, id, i, |h|)
  {
    var g := h + [x];
    assert g[|h|] == x;
    if r :| i < r < |g| && 0 <= r < |g| && Leaves(g[r], id) {
      assert r < |h| ==> Leaves(h[r], id);
    }
    if r :| i < r < |h| && 0 <= r < |h| && Leaves(h[r], id) {
      assert Leaves(g[r], id);
    }
  }

  /** A PUBLISH arrives: the window takes it in unless it holds the identifier. */
  lemma ArriveAgrees(rq: map<Int16, Package>, h: seq<Sign>, it: Item, id: Int16)
    requires Agrees(rq, h, id)
    ensures Agrees(if it.id in rq then rq else rq[it.id := Package(it.msg, PUBLISH)], h + [Arrived(it)], id)
  {
    var g := h + [Arrived(it)];
    assert g[..|g| - 1] == h;
    forall i | i < |h| ensures LeftBetween(g, id, i, |g|) == LeftBetween(h, id, i, |h|)
                       ensures LeftBetween(g, id, i, |h|) == LeftBetween(h, id, i, |h|) {
      GoneMore(h, Arrived(it), id, i);
    }
    if id in rq {
      var k :| Current(h, id, k) && rq[id].msg == h[k].item.msg;
      PrefixSame(h, Arrived(it), id, k);
      assert Current(g, id, k);
    } else if id == it.id {
      forall i | i < |h| && ArrivedAt(g, id, i) ensures LeftBetween(g, id, i, |h|) {
        assert ArrivedAt(h, id, i);
      }
      assert Current(g, id, |h|);
    } else {
      forall i | ArrivedAt(g, id, i) ensures LeftBetween(g, id, i, |g|) {
        assert ArrivedAt(h, id, i);
      }
    }
  }

  /** An identifier leaves the window. */
  lemma LeaveAgrees(rq: map<Int16, Package>, h: seq<Sign>, x: Sign, id: Int16)
    requires Agrees(rq, h, id) && !x.Arrived? && x.id in rq
    ensures Agrees(rq - {x.id}, h + [x], id)
  {
    var g := h + [x];
    assert g[..|g| - 1] == h;
    forall i | i < |h| ensures LeftBetween(g, id, i, |g|) <==> LeftBetween(h, id, i, |h|) || x.id == id {
      GoneMore(h, x, id, i);
    }
    forall i | ArrivedAt(g, id, i) ensures ArrivedAt(h, id, i) { }
    if id in rq && id != x.id {
      var k :| Current(h, id, k) && rq[id].msg == h[k].item.msg;
      PrefixSame(h, x, id, k);
      assert Current(g, id, k);
    }
  }

  /** A change of status does not matter. */
  lemma StatusAgrees(rq: map<Int16, Package>, h: seq<Sign>, id: Int16, changed: Int16, status: Kind)
    requires Agrees(rq, h, id) && changed in rq
    ensures Agrees(rq[changed := rq[changed].(status := status)], h, id)
  {
  }

  lemma GotAgrees(w: Window, s: Side, h: seq<Sign>, p: Packet, id: Int16)
    requires Agrees(s.rq, h, id)
    ensures Agrees(Feed(w, s, Got(p)).value.0.rq, h + Feed(w, s, Got(p)).value.1, id)
  {
    assert h + [] == h;
    if p.Publish? && p.item.msg.qos == 2 {
      ArriveAgrees(s.rq, h, p.item, id);
    } else if p.PubComp? && w == Window.ReceiveWindow {
      if p.id in s.rq {
        LeaveAgrees(s.rq, h, Erased(p.id), id);
      } else {
        assert s.rq - {p.id} == s.rq;
      }
    }
  }

  lemma DoneAgrees(w: Window, s: Side, h: seq<Sign>, ok: bool, id: Int16)
    requires Agrees(s.rq, h, id) && s.pending != []
    ensures var r := Feed(w, s, WriteDone(ok));
            r.Some? ==> Agrees(r.value.0.rq, h + r.value.1, id)
  {
    assert h + [] == h;
    var p := s.pending[0];
    if Feed(w, s, WriteDone(ok)).Some? {
      match p {
        case PubRec(i) => StatusAgrees(s.rq, h, id, i, PUBREC);
        case PubRel(i) => if ok && w == Window.ReceiveWindow { StatusAgrees(s.rq, h, id, i, PUBREL); }
        case PubComp(i) =>
          if ok {
            LeaveAgrees(s.rq, h, Gone(i), id);
            assert s.rq[i := s.rq[i].(status := PUBCOMP)] - {i} == s.rq - {i};
          }
        case _ =>
      }
    }
  }

  lemma FeedAgrees(w: Window, s: Side, h: seq<Sign>, x: Input, id: Int16)
    requires Agrees(s.rq, h, id)
    ensures var r := Feed(w, s, x);
            r.Some? ==> Agrees(r.value.0.rq, h + r.value.1, id)
  {
    assert h + [] == h;
    match x {
      case Got(p) => GotAgrees(w, s, h, p, id);
      case Begin(_) =>
      case WriteDone(ok) => if s.pending != [] { DoneAgrees(w, s, h, ok, id); }
    }
  }

  lemma {:induction false} TraceAgrees(w: Window, s: Side, h: seq<Sign>, xs: seq<Input>, id: Int16)
    requires Agrees(s.rq, h, id)
    ensures var r := Trace(w, s, h, xs);
            r.Some? ==> Agrees(r.value.0.rq, r.value.1, id)
    decreases xs
  {
    if xs != [] && Feed(w, s, xs[0]).Some? {
      FeedAgrees(w, s, h, xs[0], id);
      var (t, more) := Feed(w, s, xs[0]).value;
      TraceAgrees(w, t, h + more, xs[1..], id);
    }
  }

  /** Only with the window the source names does a PUBCOMP of the peer erase anything. */
  lemma {:induction false} NoneErased(s: Side, h: seq<Sign>, xs: seq<Input>, id: Int16)
    requires Erased(id) !in h
    ensures var r := Trace(SendWindow, s, h, xs);
            r.Some? ==> Erased(id) !in r.value.1
    decreases xs
  {
    if xs != [] && Feed(SendWindow, s, xs[0]).Some? {
      var (t, more) := Feed(SendWindow, s, xs[0]).value;
      NoneErased(t, h + more, xs[1..], id);
    }
  }

  lemma {:induction false} CountAbsent(h: seq<Sign>, x: Sign)
    requires x !in h
    ensures Count(h, x) == 0
  {
    if h != [] {
      CountAbsent(h[..|h| - 1], x);
    }
  }

  /** Whatever the peer sends and however the writes end: an identifier has been stored
      once more than it has left the window exactly while the window holds it, and the
      window then holds the message of its first PUBLISH since it last left. It leaves with
      a completed PUBCOMP; as the source has it, also with one the peer sends. */
  lemma HeldIsFirstSinceRelease(w: Window, xs: seq<Input>, id: Int16)
    ensures var r := Trace(w, EMPTY_SIDE, [], xs);
            r.Some? ==>
              var (s, h) := r.value;
              && Stores(h, id) == Count(h, Gone(id)) + Count(h, Erased(id)) + (if id in s.rq then 1 else 0)
              && (w == SendWindow ==> Count(h, Erased(id)) == 0)
              && (id in s.rq <==> exists k :: Current(h, id, k))
              && forall k :: Current(h, id, k) ==> id in s.rq && s.rq[id].msg == h[k].item.msg
  {
    TraceAgrees(w, EMPTY_SIDE, [], xs, id);
    var r := Trace(w, EMPTY_SIDE, [], xs);
    if r.Some? {
      var (s, h) := r.value;
      forall j, k | Current(h, id, j) && Current(h, id, k) ensures j == k {
        OneCurrent(h, id, j, k);
      }
      if k :| Current(h, id, k) {
        assert ArrivedAt(h, id, k) && !LeftBetween(h, id, k, |h|);
      }
      if w == SendWindow {
        NoneErased(EMPTY_SIDE, [], xs, id);
        CountAbsent(h, Erased(id));
      }
    }
  }

  /** Whether the callback of a write looks its packet's identifier up in the receive
      window: that of a PUBREC however the write ends, the others if it succeeds, and that of
      a PUBREL only in the window the source names. */
  predicate LooksUp(w: Window, p: Packet, ok: bool) {
    p.PubRec? || (ok && p.PubComp?) || (ok && p.PubRel? && w == Window.ReceiveWindow)
  }

  /** After any such sequence, a completion that looks its identifier up throws exactly when
      no PUBLISH of that identifier has arrived since it last left. Of the others only that
      of a PUBREL can throw, when the send window lacks its identifier. */
  lemma CompletionThrowsIff(w: Window, xs: seq<Input>, ok: bool)
    ensures var r := Trace(w, EMPTY_SIDE, [], xs);
            r.Some? && r.value.0.pending != [] ==>
              var (s, h) := r.value;
              var p := s.pending[0];
              Feed(w, s, WriteDone(ok)) == None <==>
                if LooksUp(w, p, ok) then !exists k :: Current(h, IdOf(p), k)
                else ok && p.PubRel? && p.id !in s.sq
  {
    var r := Trace(w, EMPTY_SIDE, [], xs);
    if r.Some? && r.value.0.pending != [] {
      HeldIsFirstSinceRelease(w, xs, IdOf(r.value.0.pending[0]));
    }
  }

  lemma OneCurrent(h: seq<Sign>, id: Int16, j: int, k: int)
    requires Current(h, id, j) && Current(h, id, k)
    ensures j == k
  {
    assert ArrivedAt(h, id, j) && ArrivedAt(h, id, k);
  }

  /** A PUBREL that is repeated before the first one is answered: the second of the two
      completions looks for an identifier that has already left, and throws. */
  lemma RepeatedReleaseThrows(w: Window, it: Item)
    requires it.msg.qos == 2
    ensures Trace(w, EMPTY_SIDE, [], [Got(Publish(it)), Got(PubRel(it.id)), Got(PubRel(it.id)),
                                      WriteDone(true), WriteDone(true), WriteDone(true)]) == None
  {
    var done := WriteDone(true);
    var xs := [Got(Publish(it)), Got(PubRel(it.id)), Got(PubRel(it.id)), done, done, done];
    var s1 := OnPublishSpec(Whole, EMPTY_SIDE, it);
    var s2 := OnPubRelSpec(s1, it.id);
    var s3 := OnPubRelSpec(s2, it.id);
    var h := [Arrived(it)];
    assert xs[0..] == xs;
    TraceStep(w, EMPTY_SIDE, [], xs, 0, s1, h);
    TraceStep(w, s1, h, xs, 1, s2, h);
    TraceStep(w, s2, h, xs, 2, s3, h);
    assert s3.pending == [PubRec(it.id), PubComp(it.id), PubComp(it.id)];
    ThirdThrows(w, s3, h, it.id, xs);
  }

  lemma ThirdThrows(w: Window, s3: Side, h: seq<Sign>, id: Int16, xs: seq<Input>)
    requires s3.pending == [PubRec(id), PubComp(id), PubComp(id)] && id in s3.rq
    requires |xs| == 6 && xs[3] == xs[4] == xs[5] == WriteDone(true)
    ensures Trace(w, s3, h, xs[3..]) == None
  {
    var s4 := CompleteSpec(w, s3, true).value;
    assert s4.pending == [PubComp(id), PubComp(id)];
    var s5 := CompleteSpec(w, s4, true).value;
    assert s5.pending == [PubComp(id)] && id !in s5.rq;
    TraceStep(w, s3, h, xs, 3, s4, h);
    TraceStep(w, s4, h, xs, 4, s5, h + [Gone(id)]);
    assert xs[5..] == [WriteDone(true)];
  }

  lemma TraceStep(w: Window, s: Side, h: seq<Sign>, xs: seq<Input>, k: nat, t: Side, g: seq<Sign>)
    requires k < |xs| && Feed(w, s, xs[k]).Some? && Feed(w, s, xs[k]).value.0 == t && h + Feed(w, s, xs[k]).value.1 == g
    ensures Trace(w, s, h, xs[k..]) == Trace(w, t, g, xs[k + 1..])
  {
    assert xs[k..][1..] == xs[k + 1..];
  }
}
