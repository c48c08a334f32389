/** The windows exactly as Package fills them. Its constructors take the message by value as
    the base class, so that of a publication only the header and the size are kept. The
    windows of module Qos2Client, which keep the message whole, lose exactly that: whatever
    happens, the windows as written are theirs with every message cut down. */
module SlicedPackages {
  import opened Basics
  import opened Qos2Client
  import opened Qos2Pipeline
  import opened Qos2Pair
  import R = ReceiveWindow

  /** MqttMessage, the base class: the header's bits and the declared size. */
  datatype Base = Base(qos: nat, dup: bool, retain: bool, size: nat)

  /** The size of a publication: its topic with two length bytes, its identifier if QoS is
      above 0, and its payload. */
  function SizeOf(m: Message): nat {
    2 + |m.topic| + |m.payload| + if m.qos > 0 then 2 else 0
  }

  function Kept(m: Message): Base { Base(m.qos, m.dup, m.retain, SizeOf(m)) }

  /** An endpoint, with what its windows keep. */
  type Sliced = SideOf<Base>

  // ----- the windows of whole messages, cut down

  function CutWindow(q: map<Int16, Package>): map<Int16, PackageOf<Base>> {
    map id | id in q :: Package(Kept(q[id].msg), q[id].status)
  }

  function Cut(s: Side): Sliced { Side(CutWindow(s.sq), CutWindow(s.rq), s.pending) }

  lemma CutInsert(q: map<Int16, Package>, id: Int16, x: Package)
    ensures CutWindow(q[id := x]) == CutWindow(q)[id := Package(Kept(x.msg), x.status)]
  {
  }

  lemma CutErase(q: map<Int16, Package>, id: Int16)
    ensures CutWindow(q - {id}) == CutWindow(q) - {id}
  {
  }

  lemma CutMark(q: map<Int16, Package>, id: Int16, status: Kind)
    ensures SetStatus(CutWindow(q), id, status)
         == match SetStatus(q, id, status) case None => None case Some(r) => Some(CutWindow(r))
  {
    if id in q {
      CutInsert(q, id, q[id].(status := status));
    }
  }

  lemma DeliverCuts(w: Window, s: Side, p: Packet)
    ensures DeliverSpec(Kept, w, Cut(s), p) == Cut(DeliverSpec(Whole, w, s, p))
  {
    match p {
      case Publish(it) => CutInsert(s.rq, it.id, Package(it.msg, PUBLISH));
      case PubAck(id) => CutErase(s.sq, id);
      case PubComp(id) => CutErase(s.sq, id); CutErase(s.rq, id);
      case _ =>
    }
  }

  lemma StartCuts(s: Side, it: Item)
    ensures StartSpec(Kept, Cut(s), it) == Cut(StartSpec(Whole, s, it))
  {
    CutInsert(s.sq, it.id, Package(it.msg, PUBLISH));
  }

  lemma CompleteCuts(w: Window, s: Side, ok: bool)
    requires s.pending != []
    ensures CompleteSpec(w, Cut(s), ok) == match CompleteSpec(w, s, ok) case None => None case Some(t) => Some(Cut(t))
  {
    match s.pending[0] {
      case PubRec(id) => CutMark(s.rq, id, PUBREC);
      case PubRel(id) => CutMark(s.rq, id, PUBREL); CutMark(s.sq, id, PUBREL);
      case PubComp(id) =>
        CutMark(s.rq, id, PUBCOMP);
        if id in s.rq { CutErase(s.rq[id := s.rq[id].(status := PUBCOMP)], id); }
      case _ =>
    }
  }

  // ----- against an arbitrary peer

  lemma FeedCuts(w: Window, s: Side, x: R.Input)
    ensures R.FeedWith(Kept, w, Cut(s), x)
         == match R.Feed(w, s, x) case None => None case Some(r) => Some((Cut(r.0), r.1))
  {
    match x {
      case Got(p) => DeliverCuts(w, s, p);
      case Begin(it) => StartCuts(s, it);
      case WriteDone(ok) => if s.pending != [] { CompleteCuts(w, s, ok); }
    }
  }

  lemma {:induction false} TraceCuts(w: Window, s: Side, h: seq<R.Sign>, xs: seq<R.Input>)
    ensures R.TraceWith(Kept, w, Cut(s), h, xs)
         == match R.Trace(w, s, h, xs) case None => None case Some(r) => Some((Cut(r.0), r.1))
    decreases xs
  {
    if xs != [] {
      FeedCuts(w, s, xs[0]);
      if R.Feed(w, s, xs[0]).Some? {
        var (t, more) := R.Feed(w, s, xs[0]).value;
        TraceCuts(w, t, h + more, xs[1..]);
      }
    }
  }

  const EMPTY: Sliced := Side(map[], map[], [])

  /** The receive window exactly as written, whatever the peer sends and however writes end:
      it throws when the one of whole messages does, and shows the same signs; it holds an
      identifier exactly while that has been stored and has not left since, and of the first
      PUBLISH since it last left it keeps header and size. */
  lemma WindowKeepsHeaderAndSize(w: Window, xs: seq<R.Input>, id: Int16)
    ensures R.TraceWith(Kept, w, EMPTY, [], xs) == None <==> R.Trace(w, EMPTY_SIDE, [], xs) == None
    ensures var r := R.Trace(w, EMPTY_SIDE, [], xs);
            r.Some? ==>
              var (s, h) := r.value;
              var (t, g) := R.TraceWith(Kept, w, EMPTY, [], xs).value;
              && t == Cut(s) && g == h
              && (id in t.rq <==> exists k :: R.Current(h, id, k))
              && forall k :: R.Current(h, id, k) ==> id in t.rq && t.rq[id].msg == Kept(h[k].item.msg)
  {
    assert Cut(EMPTY_SIDE) == EMPTY;
    TraceCuts(w, EMPTY_SIDE, [], xs);
    R.HeldIsFirstSinceRelease(w, xs, id);
  }

  // ----- between two endpoints

  function CutItem(it: Item): ItemOf<Base> { Item(it.id, Kept(it.msg)) }

  function CutItems(its: seq<Item>): (r: seq<ItemOf<Base>>)
    ensures |r| == |its| && forall i :: 0 <= i < |its| ==> r[i] == CutItem(its[i])
  {
    seq(|its|, i requires 0 <= i < |its| => CutItem(its[i]))
  }

  lemma CutPush(its: seq<Item>, it: Item)
    ensures CutItems(its + [it]) == CutItems(its) + [CutItem(it)]
  {
  }

  function CutLog(l: Log): LogOf<Base> {
    Log(CutItems(l.published), CutItems(l.stored), CutItems(l.freed), CutItems(l.released))
  }

  function CutPair(p: Pair): PairOf<Base> {
    Pair(Cut(p.a), Cut(p.b), p.ab, p.ba, CutLog(p.fromA), CutLog(p.fromB))
  }

  lemma RecordCuts(p: Pair, after: Side, id: Int16)
    ensures Record(CutPair(p), Cut(after), id) == CutPair(Record(p, after, id))
  {
    if id in after.sq { CutPush(p.fromA.published, Item(id, after.sq[id].msg)); }
    if id in p.a.sq { CutPush(p.fromA.released, Item(id, p.a.sq[id].msg)); }
    if id in after.rq { CutPush(p.fromB.stored, Item(id, after.rq[id].msg)); }
    if id in p.a.rq { CutPush(p.fromB.freed, Item(id, p.a.rq[id].msg)); }
  }

  lemma ActCuts(w: Window, p: Pair, act: Act)
    ensures ActWith(Kept, w, CutPair(p), act) == match ActA(w, p, act) case None => None case Some(q) => Some(CutPair(q))
  {
    match act {
      case Start(it) =>
        StartCuts(p.a, it);
        RecordCuts(p, StartSpec(Whole, p.a, it), it.id);
      case Deliver =>
        if p.ba != [] {
          DeliverCuts(w, p.a, p.ba[0]);
          RecordCuts(p, DeliverSpec(Whole, w, p.a, p.ba[0]), IdOf(p.ba[0]));
        }
      case Complete =>
        if p.a.pending != [] {
          CompleteCuts(w, p.a, true);
          if CompleteSpec(w, p.a, true).Some? {
            RecordCuts(p, CompleteSpec(w, p.a, true).value, IdOf(p.a.pending[0]));
          }
        }
    }
  }

  lemma StepCuts(w: Window, p: Pair, e: Event)
    ensures StepWith(Kept, w, CutPair(p), e) == match Step(w, p, e) case None => None case Some(q) => Some(CutPair(q))
  {
    ActCuts(w, if e.who == A then p else Flip(p), e.act);
  }

  /** Every run of two endpoints with the windows as written goes as the run with whole
      messages goes, throws when that throws, and has its windows and logs cut down. */
  lemma {:induction false} RunCuts(w: Window, p: Pair, es: seq<Event>)
    ensures RunWith(Kept, w, CutPair(p), es) == match Run(w, p, es) case None => None case Some(q) => Some(CutPair(q))
    decreases es
  {
    if es != [] {
      StepCuts(w, p, es[0]);
      if Step(w, p, es[0]).Some? {
        RunCuts(w, Step(w, p, es[0]).value, es[1..]);
      }
    }
  }

  // ----- what is lost

  /** Two publications are kept alike exactly when they have the same header bits and as many
      bytes of topic and payload together. */
  lemma KeptAlikeIff(m: Message, n: Message)
    ensures Kept(m) == Kept(n) <==>
              && m.qos == n.qos && m.dup == n.dup && m.retain == n.retain
              && |m.topic| + |m.payload| == |n.topic| + |n.payload|
  {
  }

  /** The endpoint as written after receiving one PUBLISH. */
  function Received(w: Window, id: Int16, m: Message): Option<Sliced> {
    var r :- R.TraceWith(Kept, w, EMPTY, [], [R.Got(Publish(Item(id, m)))]);
    Some(r.0)
  }

  /** It is the same for two publications exactly when they are kept alike. */
  lemma ReceivedAlikeIff(w: Window, id: Int16, m: Message, n: Message)
    requires m.qos == 2 && n.qos == 2
    ensures Received(w, id, m) == Received(w, id, n) <==> Kept(m) == Kept(n)
  {
    OneReceived(w, id, m);
    OneReceived(w, id, n);
    assert map[id := Package(Kept(m), PUBLISH)][id] != map[id := Package(Kept(n), PUBLISH)][id] <==> Kept(m) != Kept(n);
  }

  lemma OneReceived(w: Window, id: Int16, m: Message)
    requires m.qos == 2
    ensures Received(w, id, m) == Some(Side(map[], map[id := Package(Kept(m), PUBLISH)], [PubRec(id)]))
  {
    var p := Publish(Item(id, m));
    var xs := [R.Got(p)];
    assert xs[1..] == [];
    var s := DeliverSpec(Kept, w, EMPTY, p);
    assert s == Side(map[], map[id := Package(Kept(m), PUBLISH)], [PubRec(id)]);
    assert R.TraceWith(Kept, w, s, [] + [R.Arrived(p.item)], []) == Some((s, [] + [R.Arrived(p.item)]));
  }

  /** For one, topic "t" with payload "on" and topic "so" with payload "n" cannot be told
      apart any more. */
  lemma TopicAndPayloadAreLost(w: Window, id: Int16)
    ensures var m, n := Message(2, false, false, "t", "on"), Message(2, false, false, "so", "n");
            m != n && Received(w, id, m) == Received(w, id, n)
  {
    var m, n := Message(2, false, false, "t", "on"), Message(2, false, false, "so", "n");
    assert m.topic != n.topic;
    ReceivedAlikeIff(w, id, m, n);
  }
}
