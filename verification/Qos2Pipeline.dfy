/** The publications of one end as a pipeline: eight queues of packets, the two windows
    they move through, and the log of what has happened. Every move shifts the front of
    one queue to the back of the next, so the queues always spell out, stage by stage, a
    stretch of the publications in the order in which they were begun. */
module Qos2Pipeline {
  import opened Basics
  import opened Qos2Client

  /** The publications begun, those that entered the peer's receive window, those that
      left it, and those whose identifier left the send window, in order of occurrence. */
  datatype LogOf<T> = Log(published: seq<ItemOf<T>>, stored: seq<ItemOf<T>>,
                          freed: seq<ItemOf<T>>, released: seq<ItemOf<T>>)

  type Log = LogOf<Message>

  /** The queues between the stages of the exchange, last stage first; for each packet
      kind the packets on the wire come before those that wait to be written. */
  const COMP_WIRE := 0
  const COMP_WAITS := 1
  const REL_WIRE := 2
  const REL_WAITS := 3
  const REC_WIRE := 4
  const REC_WAITS := 5
  const PUB_WIRE := 6
  const PUB_WAITS := 7
  const STAGES := 8

  function StageKind(i: nat): Kind
    requires i < STAGES
  {
    if i <= COMP_WAITS then PUBCOMP else if i <= REL_WAITS then PUBREL
    else if i <= REC_WAITS then PUBREC else PUBLISH
  }

  datatype Pipe = Pipe(queues: seq<seq<Packet>>, sq: map<Int16, Package>, rq: map<Int16, Package>, log: Log)

  /** marks[i] counts the publications that have left queue i; marks[STAGES] counts all. */
  type Marks = seq<nat>

  /** The packet of the given kind that belongs to a publication. */
  function Token(kind: Kind, it: Item): Packet {
    match kind
    case PUBLISH => Publish(it)
    case PUBACK => PubAck(it.id)
    case PUBREC => PubRec(it.id)
    case PUBREL => PubRel(it.id)
    case PUBCOMP => PubComp(it.id)
  }

  function Tokens(kind: Kind, its: seq<Item>): seq<Packet> {
    if its == [] then [] else [Token(kind, its[0])] + Tokens(kind, its[1..])
  }

  lemma {:induction false} TokensPush(kind: Kind, its: seq<Item>, it: Item)
    ensures Tokens(kind, its + [it]) == Tokens(kind, its) + [Token(kind, it)]
  {
    if its == [] {
      assert its + [it] == [it];
    } else {
      TokensPush(kind, its[1..], it);
      assert (its + [it])[1..] == its[1..] + [it];
    }
  }

  /** The packets q are, in order, those of publications lo to hi. */
  ghost predicate Carries(q: seq<Packet>, kind: Kind, pubs: seq<Item>, lo: nat, hi: nat) {
    && lo <= hi <= |pubs|
    && q == Tokens(kind, pubs[lo..hi])
  }

  lemma CarriesPush(q: seq<Packet>, kind: Kind, pubs: seq<Item>, lo: nat, hi: nat)
    requires Carries(q, kind, pubs, lo, hi) && hi < |pubs|
    ensures Carries(q + [Token(kind, pubs[hi])], kind, pubs, lo, hi + 1)
  {
    assert pubs[lo..hi + 1] == pubs[lo..hi] + [pubs[hi]];
    TokensPush(kind, pubs[lo..hi], pubs[hi]);
  }

  lemma CarriesPop(q: seq<Packet>, kind: Kind, pubs: seq<Item>, lo: nat, hi: nat)
    requires q != [] && Carries(q, kind, pubs, lo, hi)
    ensures lo < hi && q[0] == Token(kind, pubs[lo])
    ensures Carries(q[1..], kind, pubs, lo + 1, hi)
  {
    assert pubs[lo..hi][1..] == pubs[lo + 1..hi];
  }

  lemma CarriesMore(q: seq<Packet>, kind: Kind, pubs: seq<Item>, lo: nat, hi: nat, it: Item)
    requires Carries(q, kind, pubs, lo, hi)
    ensures Carries(q, kind, pubs + [it], lo, hi)
  {
    assert (pubs + [it])[lo..hi] == pubs[lo..hi];
  }

  ghost predicate IdsDistinct(pubs: seq<Item>, lo: nat) {
    forall i, j :: lo <= i < j < |pubs| ==> pubs[i].id != pubs[j].id
  }

  /** The window entries of publications lo to hi: those before mark have reached the
      later status. */
  ghost function Entries(pubs: seq<Item>, lo: nat, hi: nat, mark: nat, later: Kind): map<Int16, Package>
    requires lo <= mark <= hi <= |pubs|
  {
    if lo == hi then map[]
    else
      Entries(pubs, lo, hi - 1, if mark < hi then mark else hi - 1, later)
        [pubs[hi - 1].id := Package(pubs[hi - 1].msg, if hi - 1 < mark then later else PUBLISH)]
  }

  ghost predicate Holds(q: map<Int16, Package>, pubs: seq<Item>, lo: nat, hi: nat, mark: nat, later: Kind) {
    lo <= mark <= hi <= |pubs| && q == Entries(pubs, lo, hi, mark, later)
  }

  ghost predicate Logged(log: Log, m: Marks) {
    && |m| == STAGES + 1
    && m[COMP_WIRE] <= |log.published| && log.released == log.published[..m[COMP_WIRE]]
    && m[COMP_WAITS] <= |log.published| && log.freed == log.published[..m[COMP_WAITS]]
    && m[PUB_WIRE] <= |log.published| && log.stored == log.published[..m[PUB_WIRE]]
  }

  ghost predicate Queued(h: Pipe, m: Marks) {
    && |h.queues| == STAGES && |m| == STAGES + 1
    && m[STAGES] == |h.log.published|
    && forall i :: 0 <= i < STAGES ==> Carries(h.queues[i], StageKind(i), h.log.published, m[i], m[i + 1])
  }

  ghost predicate Windowed(h: Pipe, m: Marks) {
    && |m| == STAGES + 1
    && Holds(h.sq, h.log.published, m[COMP_WIRE], |h.log.published|, m[REL_WAITS], PUBREL)
    && Holds(h.rq, h.log.published, m[COMP_WAITS], m[PUB_WIRE], m[REC_WAITS], PUBREC)
    && IdsDistinct(h.log.published, m[COMP_WIRE])
  }

  /** The invariant: queues, windows and log describe the same stretches of the
      publications, and no two publications under way share an identifier. */
  ghost predicate Flows(h: Pipe, m: Marks) {
    Queued(h, m) && Windowed(h, m) && Logged(h.log, m)
  }

  // ----- the windows

  /** What a window holds, entry by entry. */
  lemma {:induction false} WindowEntries(pubs: seq<Item>, lo: nat, hi: nat, mark: nat, later: Kind)
    requires lo <= mark <= hi <= |pubs| && IdsDistinct(pubs, lo)
    ensures forall id :: id in Entries(pubs, lo, hi, mark, later) ==> exists k :: lo <= k < hi && pubs[k].id == id
    ensures forall k :: lo <= k < hi ==>
      && pubs[k].id in Entries(pubs, lo, hi, mark, later)
      && Entries(pubs, lo, hi, mark, later)[pubs[k].id] == Package(pubs[k].msg, if k < mark then later else PUBLISH)
    decreases hi
  {
    if lo < hi {
      WindowEntries(pubs, lo, hi - 1, if mark < hi then mark else hi - 1, later);
    }
  }

  lemma WindowInsert(pubs: seq<Item>, lo: nat, hi: nat, mark: nat, later: Kind)
    requires lo <= mark <= hi < |pubs| && IdsDistinct(pubs, lo)
    ensures pubs[hi].id !in Entries(pubs, lo, hi, mark, later)
    ensures Entries(pubs, lo, hi, mark, later)[pubs[hi].id := Package(pubs[hi].msg, PUBLISH)]
         == Entries(pubs, lo, hi + 1, mark, later)
  {
    WindowEntries(pubs, lo, hi, mark, later);
  }

  lemma WindowMark(pubs: seq<Item>, lo: nat, hi: nat, mark: nat, later: Kind)
    requires lo <= mark < hi <= |pubs| && IdsDistinct(pubs, lo)
    ensures var q := Entries(pubs, lo, hi, mark, later);
            pubs[mark].id in q
            && q[pubs[mark].id := q[pubs[mark].id].(status := later)] == Entries(pubs, lo, hi, mark + 1, later)
  {
    WindowEntries(pubs, lo, hi, mark, later);
    WindowEntries(pubs, lo, hi, mark + 1, later);
  }

  lemma WindowDrop(pubs: seq<Item>, lo: nat, hi: nat, mark: nat, later: Kind)
    requires lo < mark <= hi <= |pubs| && IdsDistinct(pubs, lo)
    ensures var q := Entries(pubs, lo, hi, mark, later);
            && pubs[lo].id in q && q[pubs[lo].id].msg == pubs[lo].msg
            && q - {pubs[lo].id} == Entries(pubs, lo + 1, hi, mark, later)
  {
    WindowEntries(pubs, lo, hi, mark, later);
    WindowEntries(pubs, lo + 1, hi, mark, later);
  }

  /** A publication begins after all the others; earlier windows do not see it. */
  lemma {:induction false} WindowMore(pubs: seq<Item>, lo: nat, hi: nat, mark: nat, later: Kind, it: Item)
    requires lo <= mark <= hi <= |pubs|
    ensures Entries(pubs + [it], lo, hi, mark, later) == Entries(pubs, lo, hi, mark, later)
    decreases hi
  {
    if lo < hi {
      WindowMore(pubs, lo, hi - 1, if mark < hi then mark else hi - 1, later, it);
    }
  }

  // ----- the moves

  /** The packet that follows x at a stage of the given kind. */
  function Answer(x: Packet, kind: Kind): Packet
    requires x.Publish? || kind != PUBLISH
  {
    if KindOf(x) == kind then x else Token(kind, Item(IdOf(x), Message(0, false, false, "", "")))
  }

  /** A packet at the front of queue i can be moved on: it has the right kind, and the
      windows hold, or do not yet hold, its identifier. */
  ghost predicate Enabled(h: Pipe, i: nat) {
    && i < STAGES == |h.queues|
    && h.queues[i] != []
    && KindOf(h.queues[i][0]) == StageKind(i)
    && var id := IdOf(h.queues[i][0]);
       match i
       case 0 => id in h.sq
       case 1 => id in h.rq
       case 3 => id in h.sq
       case 5 => id in h.rq
       case 6 => id !in h.rq
       case _ => true
  }

  /** The packet at the front of queue i, or its answer, goes to the back of the queue of
      the next stage; behind the last stage there is none. */
  ghost function MoveQueues(queues: seq<seq<Packet>>, i: nat): seq<seq<Packet>>
    requires i < STAGES == |queues| && queues[i] != [] && KindOf(queues[i][0]) == StageKind(i)
  {
    var popped := queues[i := queues[i][1..]];
    if i == 0 then popped else popped[i - 1 := popped[i - 1] + [Answer(queues[i][0], StageKind(i - 1))]]
  }

  /** Moves the packet at the front of queue i on to the next stage, with what that does
      to the windows and the log. */
  ghost function Move(h: Pipe, i: nat): Pipe
    requires Enabled(h, i)
  {
    var x := h.queues[i][0];
    var id := IdOf(x);
    var h := h.(queues := MoveQueues(h.queues, i));
    match i
    case 0 => h.(sq := h.sq - {id}, log := h.log.(released := h.log.released + [Item(id, h.sq[id].msg)]))
    case 1 => h.(rq := h.rq - {id}, log := h.log.(freed := h.log.freed + [Item(id, h.rq[id].msg)]))
    case 3 => h.(sq := h.sq[id := h.sq[id].(status := PUBREL)])
    case 5 => h.(rq := h.rq[id := h.rq[id].(status := PUBREC)])
    case 6 => h.(rq := h.rq[id := Package(x.item.msg, PUBLISH)], log := h.log.(stored := h.log.stored + [x.item]))
    case _ => h
  }

  /** A publication under a free identifier enters the send window. */
  ghost function Begin(h: Pipe, it: Item): Pipe
    requires |h.queues| == STAGES
  {
    h.(queues := h.queues[PUB_WAITS := h.queues[PUB_WAITS] + [Publish(it)]],
       sq := h.sq[it.id := Package(it.msg, PUBLISH)],
       log := h.log.(published := h.log.published + [it]))
  }

  function Advance(m: Marks, i: nat): Marks
    requires i < |m|
  {
    m[i := m[i] + 1]
  }

  ghost predicate Ascending(m: Marks) {
    |m| == STAGES + 1 && m[0] <= m[1] <= m[2] <= m[3] <= m[4] <= m[5] <= m[6] <= m[7] <= m[8]
  }

  lemma MarksAscend(h: Pipe, m: Marks)
    requires Queued(h, m)
    ensures Ascending(m)
  {
    assert forall i :: 0 <= i < STAGES ==> Carries(h.queues[i], StageKind(i), h.log.published, m[i], m[i + 1]);
    assert m[0] <= m[0 + 1] && m[1] <= m[1 + 1] && m[2] <= m[2 + 1] && m[3] <= m[3 + 1];
    assert m[4] <= m[4 + 1] && m[5] <= m[5 + 1] && m[6] <= m[6 + 1] && m[7] <= m[7 + 1];
  }

  /** The packet at the front of a queue is the one its mark points to. */
  lemma FrontPacket(h: Pipe, m: Marks, i: nat)
    requires Queued(h, m)
    requires i < STAGES && h.queues[i] != []
    ensures m[i] < m[i + 1] <= |h.log.published|
    ensures h.queues[i][0] == Token(StageKind(i), h.log.published[m[i]])
  {
    CarriesPop(h.queues[i], StageKind(i), h.log.published, m[i], m[i + 1]);
  }

  /** The windows hold what the move of that packet looks up. */
  lemma WindowsAgree(h: Pipe, m: Marks, i: nat)
    requires Windowed(h, m) && Ascending(m) && m[STAGES] == |h.log.published|
    requires i < STAGES == |h.queues| && m[i] < m[i + 1] && h.queues[i] != []
    requires h.queues[i][0] == Token(StageKind(i), h.log.published[m[i]])
    ensures Enabled(h, i)
  {
    var pubs := h.log.published;
    match i {
      case 0 => WindowEntries(pubs, m[COMP_WIRE], |pubs|, m[REL_WAITS], PUBREL);
      case 1 => WindowEntries(pubs, m[COMP_WAITS], m[PUB_WIRE], m[REC_WAITS], PUBREC);
      case 3 => WindowEntries(pubs, m[COMP_WIRE], |pubs|, m[REL_WAITS], PUBREL);
      case 5 => WindowEntries(pubs, m[COMP_WAITS], m[PUB_WIRE], m[REC_WAITS], PUBREC);
      case 6 => WindowInsert(pubs, m[COMP_WAITS], m[PUB_WIRE], m[REC_WAITS], PUBREC);
      case _ =>
    }
  }

  lemma QueuesKeep(h: Pipe, m: Marks, i: nat)
    requires Queued(h, m) && Enabled(h, i)
    ensures Queued(Move(h, i), Advance(m, i))
  {
    var pubs := h.log.published;
    assert Carries(h.queues[i], StageKind(i), pubs, m[i], m[i + 1]);
    CarriesPop(h.queues[i], StageKind(i), pubs, m[i], m[i + 1]);
    if i > 0 {
      assert Carries(h.queues[i - 1], StageKind(i - 1), pubs, m[i - 1], m[i]);
      CarriesPush(h.queues[i - 1], StageKind(i - 1), pubs, m[i - 1], m[i]);
    }
  }

  lemma WindowsKeep(h: Pipe, m: Marks, i: nat)
    requires Windowed(h, m) && Ascending(m) && m[STAGES] == |h.log.published| && Enabled(h, i)
    requires m[i] < m[i + 1]
    requires h.queues[i][0] == Token(StageKind(i), h.log.published[m[i]])
    ensures Windowed(Move(h, i), Advance(m, i))
  {
    var pubs := h.log.published;
    match i {
      case 0 => WindowDrop(pubs, m[COMP_WIRE], |pubs|, m[REL_WAITS], PUBREL);
      case 1 => WindowDrop(pubs, m[COMP_WAITS], m[PUB_WIRE], m[REC_WAITS], PUBREC);
      case 3 => WindowMark(pubs, m[COMP_WIRE], |pubs|, m[REL_WAITS], PUBREL);
      case 5 => WindowMark(pubs, m[COMP_WAITS], m[PUB_WIRE], m[REC_WAITS], PUBREC);
      case 6 => WindowInsert(pubs, m[COMP_WAITS], m[PUB_WIRE], m[REC_WAITS], PUBREC);
      case _ =>
    }
  }

  lemma LogKeeps(h: Pipe, m: Marks, i: nat)
    requires Windowed(h, m) && Logged(h.log, m) && Ascending(m) && m[STAGES] == |h.log.published| && Enabled(h, i)
    requires m[i] < m[i + 1]
    requires h.queues[i][0] == Token(StageKind(i), h.log.published[m[i]])
    ensures Logged(Move(h, i).log, Advance(m, i))
  {
    var pubs := h.log.published;
    assert pubs[..m[i] + 1] == pubs[..m[i]] + [pubs[m[i]]];
    match i {
      case 0 => WindowDrop(pubs, m[COMP_WIRE], |pubs|, m[REL_WAITS], PUBREL);
      case 1 => WindowDrop(pubs, m[COMP_WAITS], m[PUB_WIRE], m[REC_WAITS], PUBREC);
      case _ =>
    }
  }

  /** Moving any packet on keeps the invariant and advances exactly one mark. */
  lemma MoveKeeps(h: Pipe, m: Marks, i: nat)
    requires Flows(h, m)
    requires i < STAGES && h.queues[i] != []
    ensures Enabled(h, i) && Flows(Move(h, i), Advance(m, i))
  {
    MarksAscend(h, m);
    FrontPacket(h, m, i);
    WindowsAgree(h, m, i);
    QueuesKeep(h, m, i);
    WindowsKeep(h, m, i);
    LogKeeps(h, m, i);
  }

  lemma BeginQueues(h: Pipe, m: Marks, it: Item)
    requires Queued(h, m)
    ensures Queued(Begin(h, it), Advance(m, STAGES))
  {
    var pubs := h.log.published;
    var more := pubs + [it];
    forall i | 0 <= i < STAGES ensures Carries(h.queues[i], StageKind(i), more, m[i], m[i + 1]) {
      CarriesMore(h.queues[i], StageKind(i), pubs, m[i], m[i + 1], it);
    }
    CarriesPush(h.queues[PUB_WAITS], PUBLISH, more, m[PUB_WAITS], |pubs|);
  }

  lemma BeginWindows(h: Pipe, m: Marks, it: Item)
    requires Windowed(h, m) && it.id !in h.sq && |h.queues| == STAGES && m[STAGES] == |h.log.published|
    ensures Windowed(Begin(h, it), Advance(m, STAGES))
  {
    var pubs := h.log.published;
    var more := pubs + [it];
    WindowEntries(pubs, m[COMP_WIRE], |pubs|, m[REL_WAITS], PUBREL);
    assert IdsDistinct(more, m[COMP_WIRE]) by {
      forall i | m[COMP_WIRE] <= i < |pubs| ensures pubs[i].id != it.id {
        assert pubs[i].id in h.sq;
      }
    }
    WindowMore(pubs, m[COMP_WIRE], |pubs|, m[REL_WAITS], PUBREL, it);
    WindowMore(pubs, m[COMP_WAITS], m[PUB_WIRE], m[REC_WAITS], PUBREC, it);
    WindowInsert(more, m[COMP_WIRE], |pubs|, m[REL_WAITS], PUBREL);
  }

  lemma BeginLog(log: Log, m: Marks, it: Item)
    requires Logged(log, m)
    ensures Logged(log.(published := log.published + [it]), Advance(m, STAGES))
  {
    var pubs := log.published;
    var more := pubs + [it];
    assert more[..m[COMP_WIRE]] == pubs[..m[COMP_WIRE]];
    assert more[..m[COMP_WAITS]] == pubs[..m[COMP_WAITS]];
    assert more[..m[PUB_WIRE]] == pubs[..m[PUB_WIRE]];
  }

  /** Beginning a publication under a free identifier keeps the invariant. */
  lemma BeginKeeps(h: Pipe, m: Marks, it: Item)
    requires Flows(h, m) && it.id !in h.sq
    ensures Flows(Begin(h, it), Advance(m, STAGES))
  {
    BeginQueues(h, m, it);
    BeginWindows(h, m, it);
    BeginLog(h.log, m, it);
  }
}
