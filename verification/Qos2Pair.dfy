/** Two endpoints joined by a connection: each may publish to the other with QoS 2 at
    any time. A run is any interleaving of three kinds of step taken by either end: start
    a publication under a free identifier, complete the oldest pending write (the packet
    reaches the wire and its callback runs), and handle the oldest packet received. */
module Qos2Pair {
  import opened Basics
  import opened Qos2Client
  import opened Qos2Pipeline

  /** fromA logs the publications of end a, fromB those of end b; ab and ba are the
      packets on the wire, oldest first. */
  datatype PairOf<T> = Pair(a: SideOf<T>, b: SideOf<T>, ab: seq<Packet>, ba: seq<Packet>,
                            fromA: LogOf<T>, fromB: LogOf<T>)

  type Pair = PairOf<Message>

  datatype Act = Start(item: Item) | Deliver | Complete

  datatype End = A | B

  datatype Event = Event(who: End, act: Act)

  const EMPTY_LOG: Log := Log([], [], [], [])
  const INIT: Pair := Pair(EMPTY_SIDE, EMPTY_SIDE, [], [], EMPTY_LOG, EMPTY_LOG)

  /** The pair seen from the other end. */
  function Flip<T>(p: PairOf<T>): PairOf<T> {
    Pair(p.b, p.a, p.ba, p.ab, p.fromB, p.fromA)
  }

  /** Logs the entry for id that a step of one end made appear in or disappear from its
      windows: the send window concerns its own publications, the receive window the
      peer's. */
  function Record<T>(p: PairOf<T>, after: SideOf<T>, id: Int16): PairOf<T> {
    var own := p.fromA;
    var own := if id !in p.a.sq && id in after.sq
               then own.(published := own.published + [Item(id, after.sq[id].msg)]) else own;
    var own := if id in p.a.sq && id !in after.sq
               then own.(released := own.released + [Item(id, p.a.sq[id].msg)]) else own;
    var peer := p.fromB;
    var peer := if id !in p.a.rq && id in after.rq
                then peer.(stored := peer.stored + [Item(id, after.rq[id].msg)]) else peer;
    var peer := if id in p.a.rq && id !in after.rq
                then peer.(freed := peer.freed + [Item(id, p.a.rq[id].msg)]) else peer;
    p.(a := after, fromA := own, fromB := peer)
  }

  /** A step of end A; a step that is not enabled leaves the pair as it is. None means
      that a callback threw. */
  function ActWith<T>(keep: Message -> T, w: Window, p: PairOf<T>, act: Act): Option<PairOf<T>> {
    match act
    case Start(it) =>
      if it.id in p.a.sq || it.msg.qos != 2 then Some(p)
      else Some(Record(p, StartSpec(keep, p.a, it), it.id))
    case Deliver =>
      if p.ba == [] then Some(p)
      else Some(Record(p, DeliverSpec(keep, w, p.a, p.ba[0]), IdOf(p.ba[0])).(ba := p.ba[1..]))
    case Complete =>
      if p.a.pending == [] then Some(p)
      else
        var x := p.a.pending[0];
        var a :- CompleteSpec(w, p.a, true);
        Some(Record(p, a, IdOf(x)).(ab := p.ab + [x]))
  }

  function StepWith<T>(keep: Message -> T, w: Window, p: PairOf<T>, e: Event): Option<PairOf<T>> {
    if e.who == A then ActWith(keep, w, p, e.act)
    else
      var q :- ActWith(keep, w, Flip(p), e.act);
      Some(Flip(q))
  }

  /** The pair after the given steps, or None if a callback threw on the way. */
  function RunWith<T>(keep: Message -> T, w: Window, p: PairOf<T>, es: seq<Event>): Option<PairOf<T>>
    decreases es
  {
    if es == [] then Some(p)
    else
      var q :- StepWith(keep, w, p, es[0]);
      RunWith(keep, w, q, es[1..])
  }

  // With windows of whole messages.

  function ActA(w: Window, p: Pair, act: Act): Option<Pair> { ActWith(Whole, w, p, act) }

  function Step(w: Window, p: Pair, e: Event): Option<Pair> { StepWith(Whole, w, p, e) }

  function Run(w: Window, p: Pair, es: seq<Event>): Option<Pair> { RunWith(Whole, w, p, es) }

  function Opposite(e: Event): Event {
    Event(if e.who == A then B else A, e.act)
  }

  lemma StepFlips(w: Window, p: Pair, e: Event)
    ensures Step(w, p, e).Some? <==> Step(w, Flip(p), Opposite(e)).Some?
    ensures Step(w, p, e).Some? ==> Step(w, Flip(p), Opposite(e)).value == Flip(Step(w, p, e).value)
  {
    assert Flip(Flip(p)) == p;
  }

  lemma {:induction false} RunJoin(w: Window, p: Pair, es: seq<Event>, more: seq<Event>)
    requires Run(w, p, es).Some?
    ensures Run(w, p, es + more) == Run(w, Run(w, p, es).value, more)
    decreases es
  {
    if es == [] {
      assert es + more == more;
    } else {
      RunJoin(w, Step(w, p, es[0]).value, es[1..], more);
      assert (es + more)[1..] == es[1..] + more;
    }
  }

  // ----- the pair as two pipelines

  /** The packets of one kind in a queue. */
  function Sel(q: seq<Packet>, kind: Kind): seq<Packet> {
    if q == [] then []
    else if KindOf(q[0]) == kind then [q[0]] + Sel(q[1..], kind)
    else Sel(q[1..], kind)
  }

  lemma {:induction false} SelPush(q: seq<Packet>, x: Packet, kind: Kind)
    ensures Sel(q + [x], kind) == Sel(q, kind) + if KindOf(x) == kind then [x] else []
  {
    if q == [] {
      assert q + [x] == [x];
    } else {
      SelPush(q[1..], x, kind);
      assert (q + [x])[1..] == q[1..] + [x];
    }
  }

  /** The queues that the publications of one end pass through. PUBLISH and PUBREL go from
      its pending writes over the wire called there, PUBREC and PUBCOMP from the peer's
      pending writes over the wire called back. */
  function Queues(there: seq<Packet>, back: seq<Packet>, own: seq<Packet>, peer: seq<Packet>): (r: seq<seq<Packet>>)
    ensures |r| == STAGES
  {
    [Sel(back, PUBCOMP), Sel(peer, PUBCOMP), Sel(there, PUBREL), Sel(own, PUBREL),
     Sel(back, PUBREC), Sel(peer, PUBREC), Sel(there, PUBLISH), Sel(own, PUBLISH)]
  }

  /** The pipeline of A's publications. */
  function View(p: Pair): Pipe {
    Pipe(Queues(p.ab, p.ba, p.a.pending, p.b.pending), p.a.sq, p.b.rq, p.fromA)
  }

  /** Only QoS 2 publications and their answers are under way. */
  ghost predicate Clean(q: seq<Packet>) {
    forall x :: x in q ==> !x.PubAck? && (x.Publish? ==> x.item.msg.qos == 2)
  }

  ghost predicate SamePublications(p: Pair, q: Pair) {
    q.fromA.published == p.fromA.published && q.fromB.published == p.fromB.published
  }

  ghost predicate AllClean(p: Pair) {
    Clean(p.ab) && Clean(p.ba) && Clean(p.a.pending) && Clean(p.b.pending)
  }

  ghost predicate Inv(p: Pair, m: Marks, n: Marks) {
    && Flows(View(p), m) && Flows(View(Flip(p)), n)
    && AllClean(p)
  }

  lemma PushView(q: seq<Packet>, x: Packet)
    ensures forall kind :: Sel(q + [x], kind) == if kind == KindOf(x) then Sel(q, kind) + [x] else Sel(q, kind)
  {
    forall kind { SelPush(q, x, kind); }
  }

  lemma PopView(q: seq<Packet>)
    requires q != []
    ensures forall kind :: Sel(q[1..], kind) == if kind == KindOf(q[0]) then Sel(q, kind)[1..] else Sel(q, kind)
    ensures Sel(q, KindOf(q[0])) != [] && Sel(q, KindOf(q[0]))[0] == q[0]
  {
  }

  /** Where a packet waits to be written, and where it is on the wire. */
  function WaitStage(kind: Kind): nat {
    match kind
    case PUBLISH => PUB_WAITS
    case PUBREC => REC_WAITS
    case PUBREL => REL_WAITS
    case _ => COMP_WAITS
  }

  function WireStage(kind: Kind): nat {
    match kind
    case PUBLISH => PUB_WIRE
    case PUBREC => REC_WIRE
    case PUBREL => REL_WIRE
    case _ => COMP_WIRE
  }

  predicate IsOwn(x: Packet) { x.Publish? || x.PubRel? }

  predicate IsAnswer(x: Packet) { x.PubRec? || x.PubComp? }

  // Writing or handling a packet is one move in the queues of the publication it belongs
  // to, and none in those of the other direction.

  lemma WriteInQueues(there: seq<Packet>, back: seq<Packet>, own: seq<Packet>, peer: seq<Packet>)
    requires own != [] && IsOwn(own[0])
    ensures Queues(there, back, own, peer)[WaitStage(KindOf(own[0]))] != []
    ensures Queues(there, back, own, peer)[WaitStage(KindOf(own[0]))][0] == own[0]
    ensures Queues(there + [own[0]], back, own[1..], peer)
         == MoveQueues(Queues(there, back, own, peer), WaitStage(KindOf(own[0])))
  {
    PopView(own);
    PushView(there, own[0]);
  }

  lemma AnswerInQueues(there: seq<Packet>, back: seq<Packet>, own: seq<Packet>, peer: seq<Packet>)
    requires peer != [] && IsAnswer(peer[0])
    ensures Queues(there, back, own, peer)[WaitStage(KindOf(peer[0]))] != []
    ensures Queues(there, back, own, peer)[WaitStage(KindOf(peer[0]))][0] == peer[0]
    ensures Queues(there, back + [peer[0]], own, peer[1..])
         == MoveQueues(Queues(there, back, own, peer), WaitStage(KindOf(peer[0])))
  {
    PopView(peer);
    PushView(back, peer[0]);
  }

  lemma ArrivalInQueues(there: seq<Packet>, back: seq<Packet>, own: seq<Packet>, peer: seq<Packet>)
    requires there != [] && IsOwn(there[0])
    ensures Queues(there, back, own, peer)[WireStage(KindOf(there[0]))] != []
    ensures Queues(there, back, own, peer)[WireStage(KindOf(there[0]))][0] == there[0]
    ensures Queues(there[1..], back, own,
                   peer + [if there[0].Publish? then PubRec(IdOf(there[0])) else PubComp(IdOf(there[0]))])
         == MoveQueues(Queues(there, back, own, peer), WireStage(KindOf(there[0])))
  {
    PopView(there);
    PushView(peer, if there[0].Publish? then PubRec(IdOf(there[0])) else PubComp(IdOf(there[0])));
  }

  lemma ReturnInQueues(there: seq<Packet>, back: seq<Packet>, own: seq<Packet>, peer: seq<Packet>)
    requires back != [] && IsAnswer(back[0])
    ensures Queues(there, back, own, peer)[WireStage(KindOf(back[0]))] != []
    ensures Queues(there, back, own, peer)[WireStage(KindOf(back[0]))][0] == back[0]
    ensures Queues(there, back[1..], if back[0].PubRec? then own + [PubRel(back[0].id)] else own, peer)
         == MoveQueues(Queues(there, back, own, peer), WireStage(KindOf(back[0])))
  {
    PopView(back);
    PushView(own, PubRel(IdOf(back[0])));
  }

  lemma OwnPassesBy(there: seq<Packet>, back: seq<Packet>, own: seq<Packet>, peer: seq<Packet>, x: Packet)
    requires IsOwn(x)
    ensures peer != [] && peer[0] == x ==> Queues(there, back + [x], own, peer[1..]) == Queues(there, back, own, peer)
    ensures back != [] && back[0] == x ==>
      forall y :: IsAnswer(y) ==> Queues(there, back[1..], own + [y], peer) == Queues(there, back, own, peer)
  {
    PushView(back, x);
    if peer != [] { PopView(peer); }
    if back != [] { PopView(back); }
    forall y | IsAnswer(y)
      ensures Sel(own + [y], PUBLISH) == Sel(own, PUBLISH) && Sel(own + [y], PUBREL) == Sel(own, PUBREL)
    {
      PushView(own, y);
    }
  }

  lemma AnswerPassesBy(there: seq<Packet>, back: seq<Packet>, own: seq<Packet>, peer: seq<Packet>, x: Packet)
    requires IsAnswer(x)
    ensures own != [] && own[0] == x ==> Queues(there + [x], back, own[1..], peer) == Queues(there, back, own, peer)
    ensures there != [] && there[0] == x ==> Queues(there[1..], back, own, peer) == Queues(there, back, own, peer)
    ensures there != [] && there[0] == x ==>
      forall y :: IsOwn(y) ==> Queues(there[1..], back, own, peer + [y]) == Queues(there, back, own, peer)
  {
    PushView(there, x);
    if own != [] { PopView(own); }
    if there != [] { PopView(there); }
    forall y | IsOwn(y)
      ensures Sel(peer + [y], PUBREC) == Sel(peer, PUBREC) && Sel(peer + [y], PUBCOMP) == Sel(peer, PUBCOMP)
    {
      PushView(peer, y);
    }
  }

  lemma StartView(w: Window, p: Pair, it: Item)
    requires it.id !in p.a.sq && it.msg.qos == 2
    ensures var q := ActA(w, p, Start(it)).value;
            View(q) == Begin(View(p), it) && View(Flip(q)) == View(Flip(p))
  {
    PushView(p.a.pending, Publish(it));
  }

  // Completing a write is one move of A's own publications for PUBLISH and PUBREL, and one
  // of the peer's for PUBREC and PUBCOMP; handling a packet, the other way round.

  lemma WritePubView(p: Pair) returns (q: Pair)
    requires AllClean(p) && p.a.pending != [] && p.a.pending[0].Publish? && Enabled(View(p), PUB_WAITS)
    ensures ActA(SendWindow, p, Complete) == Some(q) && SamePublications(p, q) && AllClean(q)
    ensures View(q) == Move(View(p), PUB_WAITS) && View(Flip(q)) == View(Flip(p))
  {
    WriteInQueues(p.ab, p.ba, p.a.pending, p.b.pending);
    OwnPassesBy(p.ba, p.ab, p.b.pending, p.a.pending, p.a.pending[0]);
    q := ActA(SendWindow, p, Complete).value;
  }

  lemma WriteRelView(p: Pair) returns (q: Pair)
    requires AllClean(p) && p.a.pending != [] && p.a.pending[0].PubRel? && Enabled(View(p), REL_WAITS)
    ensures ActA(SendWindow, p, Complete) == Some(q) && SamePublications(p, q) && AllClean(q)
    ensures View(q) == Move(View(p), REL_WAITS) && View(Flip(q)) == View(Flip(p))
  {
    WriteInQueues(p.ab, p.ba, p.a.pending, p.b.pending);
    OwnPassesBy(p.ba, p.ab, p.b.pending, p.a.pending, p.a.pending[0]);
    q := ActA(SendWindow, p, Complete).value;
  }

  lemma WriteRecView(p: Pair) returns (q: Pair)
    requires AllClean(p) && p.a.pending != [] && p.a.pending[0].PubRec? && Enabled(View(Flip(p)), REC_WAITS)
    ensures ActA(SendWindow, p, Complete) == Some(q) && SamePublications(p, q) && AllClean(q)
    ensures View(q) == View(p) && View(Flip(q)) == Move(View(Flip(p)), REC_WAITS)
  {
    AnswerInQueues(p.ba, p.ab, p.b.pending, p.a.pending);
    AnswerPassesBy(p.ab, p.ba, p.a.pending, p.b.pending, p.a.pending[0]);
    q := ActA(SendWindow, p, Complete).value;
  }

  lemma WriteCompView(p: Pair) returns (q: Pair)
    requires AllClean(p) && p.a.pending != [] && p.a.pending[0].PubComp? && Enabled(View(Flip(p)), COMP_WAITS)
    ensures ActA(SendWindow, p, Complete) == Some(q) && SamePublications(p, q) && AllClean(q)
    ensures View(q) == View(p) && View(Flip(q)) == Move(View(Flip(p)), COMP_WAITS)
  {
    AnswerInQueues(p.ba, p.ab, p.b.pending, p.a.pending);
    AnswerPassesBy(p.ab, p.ba, p.a.pending, p.b.pending, p.a.pending[0]);
    var id := p.a.pending[0].id;
    assert p.a.rq[id := p.a.rq[id].(status := PUBCOMP)] - {id} == p.a.rq - {id};
    q := ActA(SendWindow, p, Complete).value;
  }

  lemma GetPubView(p: Pair) returns (q: Pair)
    requires AllClean(p) && p.ba != [] && p.ba[0].Publish? && Enabled(View(Flip(p)), PUB_WIRE)
    ensures ActA(SendWindow, p, Deliver) == Some(q) && SamePublications(p, q) && AllClean(q)
    ensures View(q) == View(p) && View(Flip(q)) == Move(View(Flip(p)), PUB_WIRE)
  {
    ArrivalInQueues(p.ba, p.ab, p.b.pending, p.a.pending);
    OwnPassesBy(p.ab, p.ba, p.a.pending, p.b.pending, p.ba[0]);
    assert p.ba[0] in p.ba;
    q := ActA(SendWindow, p, Deliver).value;
  }

  lemma GetRelView(p: Pair) returns (q: Pair)
    requires AllClean(p) && p.ba != [] && p.ba[0].PubRel? && Enabled(View(Flip(p)), REL_WIRE)
    ensures ActA(SendWindow, p, Deliver) == Some(q) && SamePublications(p, q) && AllClean(q)
    ensures View(q) == View(p) && View(Flip(q)) == Move(View(Flip(p)), REL_WIRE)
  {
    ArrivalInQueues(p.ba, p.ab, p.b.pending, p.a.pending);
    OwnPassesBy(p.ab, p.ba, p.a.pending, p.b.pending, p.ba[0]);
    q := ActA(SendWindow, p, Deliver).value;
  }

  lemma GetRecView(p: Pair) returns (q: Pair)
    requires AllClean(p) && p.ba != [] && p.ba[0].PubRec? && Enabled(View(p), REC_WIRE)
    ensures ActA(SendWindow, p, Deliver) == Some(q) && SamePublications(p, q) && AllClean(q)
    ensures View(q) == Move(View(p), REC_WIRE) && View(Flip(q)) == View(Flip(p))
  {
    ReturnInQueues(p.ab, p.ba, p.a.pending, p.b.pending);
    AnswerPassesBy(p.ba, p.ab, p.b.pending, p.a.pending, p.ba[0]);
    q := ActA(SendWindow, p, Deliver).value;
  }

  lemma GetCompView(p: Pair) returns (q: Pair)
    requires AllClean(p) && p.ba != [] && p.ba[0].PubComp? && Enabled(View(p), COMP_WIRE)
    ensures ActA(SendWindow, p, Deliver) == Some(q) && SamePublications(p, q) && AllClean(q)
    ensures View(q) == Move(View(p), COMP_WIRE) && View(Flip(q)) == View(Flip(p))
  {
    ReturnInQueues(p.ab, p.ba, p.a.pending, p.b.pending);
    AnswerPassesBy(p.ba, p.ab, p.b.pending, p.a.pending, p.ba[0]);
    q := ActA(SendWindow, p, Deliver).value;
  }

  // ----- the invariant over whole runs

  /** How many moves the publications under way still need. */
  ghost function Left(m: Marks): int
    requires |m| == STAGES + 1
  {
    var all: int := STAGES * m[STAGES];
    all - (m[0] + m[1] + m[2] + m[3] + m[4] + m[5] + m[6] + m[7])
  }

  /** Whether the step does anything. */
  ghost predicate Effective(p: Pair, act: Act) {
    match act
    case Start(it) => it.id !in p.a.sq && it.msg.qos == 2
    case Complete => p.a.pending != []
    case Deliver => p.ba != []
  }

  /** One move of one direction, from p to q. */
  lemma OwnMoveKeeps(h: Pipe, m: Marks, i: nat) returns (m': Marks)
    requires Flows(h, m) && i < STAGES && h.queues[i] != []
    ensures Enabled(h, i) && Flows(Move(h, i), m')
    ensures |m'| == STAGES + 1 && m'[STAGES] == m[STAGES] && Left(m') == Left(m) - 1
  {
    MoveKeeps(h, m, i);
    m' := Advance(m, i);
  }

  lemma CompleteKeeps(p: Pair, m: Marks, n: Marks) returns (q: Pair, m': Marks, n': Marks)
    requires Inv(p, m, n) && p.a.pending != []
    ensures ActA(SendWindow, p, Complete) == Some(q) && Inv(q, m', n') && SamePublications(p, q)
    ensures |m'| == |n'| == STAGES + 1 && Left(m') + Left(n') == Left(m) + Left(n) - 1
  {
    assert p.a.pending[0] in p.a.pending;
    PopView(p.a.pending);
    m', n' := m, n;
    match p.a.pending[0] {
      case Publish(_) => m' := OwnMoveKeeps(View(p), m, PUB_WAITS); q := WritePubView(p);
      case PubRel(_) => m' := OwnMoveKeeps(View(p), m, REL_WAITS); q := WriteRelView(p);
      case PubRec(_) => n' := OwnMoveKeeps(View(Flip(p)), n, REC_WAITS); q := WriteRecView(p);
      case PubComp(_) => n' := OwnMoveKeeps(View(Flip(p)), n, COMP_WAITS); q := WriteCompView(p);
    }
  }

  lemma DeliverKeeps(p: Pair, m: Marks, n: Marks) returns (q: Pair, m': Marks, n': Marks)
    requires Inv(p, m, n) && p.ba != []
    ensures ActA(SendWindow, p, Deliver) == Some(q) && Inv(q, m', n') && SamePublications(p, q)
    ensures |m'| == |n'| == STAGES + 1 && Left(m') + Left(n') == Left(m) + Left(n) - 1
  {
    assert p.ba[0] in p.ba;
    PopView(p.ba);
    m', n' := m, n;
    match p.ba[0] {
      case Publish(_) => n' := OwnMoveKeeps(View(Flip(p)), n, PUB_WIRE); q := GetPubView(p);
      case PubRel(_) => n' := OwnMoveKeeps(View(Flip(p)), n, REL_WIRE); q := GetRelView(p);
      case PubRec(_) => m' := OwnMoveKeeps(View(p), m, REC_WIRE); q := GetRecView(p);
      case PubComp(_) => m' := OwnMoveKeeps(View(p), m, COMP_WIRE); q := GetCompView(p);
    }
  }

  lemma StartKeeps(p: Pair, m: Marks, n: Marks, it: Item) returns (q: Pair, m': Marks)
    requires Inv(p, m, n) && it.id !in p.a.sq && it.msg.qos == 2
    ensures ActA(SendWindow, p, Start(it)) == Some(q) && Inv(q, m', n)
  {
    q := ActA(SendWindow, p, Start(it)).value;
    StartView(SendWindow, p, it);
    BeginKeeps(View(p), m, it);
    m' := Advance(m, STAGES);
  }

  /** Every step of end A keeps the invariant, and its callback finds its entry. A step
      that starts nothing brings the publications under way one move closer to the end. */
  lemma ActKeeps(p: Pair, act: Act, m: Marks, n: Marks) returns (q: Pair, m': Marks, n': Marks)
    requires Inv(p, m, n)
    ensures ActA(SendWindow, p, act) == Some(q) && Inv(q, m', n')
    ensures !act.Start? ==> SamePublications(p, q)
    ensures |m'| == |n'| == STAGES + 1
    ensures !act.Start? && Effective(p, act) ==> Left(m') + Left(n') == Left(m) + Left(n) - 1
  {
    q, m', n' := p, m, n;
    if Effective(p, act) {
      match act {
        case Start(it) => q, m' := StartKeeps(p, m, n, it);
        case Complete => q, m', n' := CompleteKeeps(p, m, n);
        case Deliver => q, m', n' := DeliverKeeps(p, m, n);
      }
    }
  }

  lemma FlipInv(p: Pair, m: Marks, n: Marks)
    requires Inv(p, m, n)
    ensures Inv(Flip(p), n, m) && Flip(Flip(p)) == p
  {
  }

  /** Every step of either end keeps the invariant, and no callback throws. */
  lemma StepKeeps(p: Pair, e: Event, m: Marks, n: Marks) returns (q: Pair, m': Marks, n': Marks)
    requires Inv(p, m, n)
    ensures Step(SendWindow, p, e) == Some(q) && Inv(q, m', n')
    ensures !e.act.Start? ==> SamePublications(p, q)
    ensures |m'| == |n'| == STAGES + 1
    ensures !e.act.Start? && Effective(if e.who == A then p else Flip(p), e.act) ==>
              Left(m') + Left(n') == Left(m) + Left(n) - 1
  {
    if e.who == A {
      q, m', n' := ActKeeps(p, e.act, m, n);
    } else {
      FlipInv(p, m, n);
      q, n', m' := ActKeeps(Flip(p), e.act, n, m);
      FlipInv(q, n', m');
      q := Flip(q);
    }
  }

  /** Every run keeps the invariant, and no callback ever throws. */
  lemma {:induction false} RunKeeps(p: Pair, es: seq<Event>, m: Marks, n: Marks) returns (q: Pair, m': Marks, n': Marks)
    requires Inv(p, m, n)
    ensures Run(SendWindow, p, es) == Some(q) && Inv(q, m', n')
    decreases es
  {
    q, m', n' := p, m, n;
    if es != [] {
      q, m', n' := StepKeeps(p, es[0], m, n);
      q, m', n' := RunKeeps(q, es[1..], m', n');
    }
  }

  const ZEROS: Marks := [0, 0, 0, 0, 0, 0, 0, 0, 0]

  lemma InitInv()
    ensures Inv(INIT, ZEROS, ZEROS)
  {
  }

  lemma RunFromInit(es: seq<Event>) returns (p: Pair, m: Marks, n: Marks)
    ensures Run(SendWindow, INIT, es) == Some(p) && Inv(p, m, n)
  {
    InitInv();
    p, m, n := RunKeeps(INIT, es, ZEROS, ZEROS);
  }
}
