/** What the QoS 2 exchange guarantees over every run of two endpoints, and what becomes
    of it under the window that the source addresses. */
module Qos2Guarantees {
  import opened Basics
  import opened Qos2Client
  import opened Qos2Pipeline
  import opened Qos2Pair

  // ----- exactly once, in order

  /** Each list is a prefix of the next: the k-th publication is the k-th to be stored,
      to leave the receive window and to be released, and it does so in this order, with
      the identifier and message it was published with. */
  ghost predicate ExactlyOnce(log: Log) {
    log.released <= log.freed && log.freed <= log.stored && log.stored <= log.published
  }

  /** In every run no callback throws, and every publication is stored at most once and
      released only after it was stored and freed at the receiver. */
  lemma EveryRunIsExactlyOnce(es: seq<Event>)
    ensures Run(SendWindow, INIT, es).Some?
    ensures var p := Run(SendWindow, INIT, es).value;
            ExactlyOnce(p.fromA) && ExactlyOnce(p.fromB)
  {
    var p, m, n := RunFromInit(es);
    LogIsExactlyOnce(View(p), m);
    LogIsExactlyOnce(View(Flip(p)), n);
  }

  lemma LogIsExactlyOnce(h: Pipe, m: Marks)
    requires Flows(h, m)
    ensures ExactlyOnce(h.log)
  {
    MarksAscend(h, m);
  }

  // ----- one token per identifier

  function Mentions(q: seq<Packet>, id: Int16): nat {
    if q == [] then 0 else (if IdOf(q[0]) == id then 1 else 0) + Mentions(q[1..], id)
  }

  /** How many packets in queues lo to hi carry the identifier. */
  function Span(queues: seq<seq<Packet>>, lo: nat, hi: nat, id: Int16): nat
    requires lo <= hi <= |queues|
  {
    if lo == hi then 0 else Span(queues, lo, hi - 1, id) + Mentions(queues[hi - 1], id)
  }

  /** How many of publications lo to hi carry the identifier. */
  function Uses(pubs: seq<Item>, lo: nat, hi: nat, id: Int16): nat
    requires lo <= hi <= |pubs|
  {
    if lo == hi then 0 else Uses(pubs, lo, hi - 1, id) + if pubs[hi - 1].id == id then 1 else 0
  }

  lemma {:induction false} UsesJoin(pubs: seq<Item>, lo: nat, mid: nat, hi: nat, id: Int16)
    requires lo <= mid <= hi <= |pubs|
    ensures Uses(pubs, lo, hi, id) == Uses(pubs, lo, mid, id) + Uses(pubs, mid, hi, id)
    decreases hi
  {
    if mid < hi {
      UsesJoin(pubs, lo, mid, hi - 1, id);
    }
  }

  lemma {:induction false} MentionsAreUses(q: seq<Packet>, kind: Kind, pubs: seq<Item>, lo: nat, hi: nat, id: Int16)
    requires Carries(q, kind, pubs, lo, hi)
    ensures Mentions(q, id) == Uses(pubs, lo, hi, id)
    decreases hi - lo
  {
    if lo < hi {
      assert pubs[lo..hi] != [];
      CarriesPop(q, kind, pubs, lo, hi);
      MentionsAreUses(q[1..], kind, pubs, lo + 1, hi, id);
      UsesJoin(pubs, lo, lo + 1, hi, id);
    }
  }

  lemma {:induction false} SpanIsUses(h: Pipe, m: Marks, lo: nat, hi: nat, id: Int16)
    requires Queued(h, m) && lo <= hi <= STAGES
    ensures m[lo] <= m[hi] <= |h.log.published|
    ensures Span(h.queues, lo, hi, id) == Uses(h.log.published, m[lo], m[hi], id)
    decreases hi
  {
    MarksAscend(h, m);
    if lo < hi {
      SpanIsUses(h, m, lo, hi - 1, id);
      assert Carries(h.queues[hi - 1], StageKind(hi - 1), h.log.published, m[hi - 1], m[hi - 1 + 1]);
      MentionsAreUses(h.queues[hi - 1], StageKind(hi - 1), h.log.published, m[hi - 1], m[hi], id);
      UsesJoin(h.log.published, m[lo], m[hi - 1], m[hi], id);
    }
  }

  lemma {:induction false} UsesOnce(pubs: seq<Item>, lo: nat, hi: nat, k: nat, id: Int16)
    requires lo <= hi <= |pubs| && IdsDistinct(pubs, lo)
    requires lo <= k < hi && pubs[k].id == id
    ensures Uses(pubs, lo, hi, id) == 1
    decreases hi
  {
    if k == hi - 1 {
      UsesNever(pubs, lo, hi - 1, id);
    } else {
      UsesOnce(pubs, lo, hi - 1, k, id);
    }
  }

  lemma {:induction false} UsesNever(pubs: seq<Item>, lo: nat, hi: nat, id: Int16)
    requires lo <= hi <= |pubs|
    requires forall k :: lo <= k < hi ==> pubs[k].id != id
    ensures Uses(pubs, lo, hi, id) == 0
    decreases hi
  {
    if lo < hi {
      UsesNever(pubs, lo, hi - 1, id);
    }
  }

  /** What the queues of one direction say about one identifier. */
  ghost predicate OneToken(h: Pipe, id: Int16) {
    && |h.queues| == STAGES
    // the send window holds an identifier exactly while one packet carries it
    && Span(h.queues, 0, STAGES, id) == (if id in h.sq then 1 else 0)
    // its status changes when the PUBREL reaches the wire
    && (id in h.sq ==>
          h.sq[id].status == if Span(h.queues, COMP_WIRE, REL_WAITS, id) == 1 then PUBREL else PUBLISH)
    // the peer holds it from its PUBLISH until its PUBCOMP reaches the wire
    && (id in h.rq <==> Span(h.queues, COMP_WAITS, PUB_WIRE, id) == 1)
    && (id in h.rq ==>
          && id in h.sq && h.rq[id].msg == h.sq[id].msg
          && h.rq[id].status == if Span(h.queues, REC_WAITS, PUB_WIRE, id) == 1 then PUBLISH else PUBREC)
  }

  /** How often the packets of queues lo to hi carry the identifier of publication k. */
  lemma SpanOfPublication(h: Pipe, m: Marks, lo: nat, hi: nat, k: nat)
    requires Queued(h, m) && IdsDistinct(h.log.published, m[COMP_WIRE])
    requires lo <= hi <= STAGES && m[COMP_WIRE] <= k < |h.log.published|
    ensures Span(h.queues, lo, hi, h.log.published[k].id) == if m[lo] <= k < m[hi] then 1 else 0
  {
    var id := h.log.published[k].id;
    MarksAscend(h, m);
    SpanIsUses(h, m, lo, hi, id);
    assert m[COMP_WIRE] <= m[lo];
    UsesWithin(h.log.published, m[COMP_WIRE], m[lo], m[hi], k);
  }

  /** The entries of publication k in the two windows. */
  lemma WindowOfPublication(h: Pipe, m: Marks, k: nat)
    requires Windowed(h, m) && Ascending(m) && m[STAGES] == |h.log.published|
    requires m[COMP_WIRE] <= k < |h.log.published|
    ensures var it := h.log.published[k];
            && it.id in h.sq && h.sq[it.id] == Package(it.msg, if k < m[REL_WAITS] then PUBREL else PUBLISH)
            && (it.id in h.rq <==> m[COMP_WAITS] <= k < m[PUB_WIRE])
            && (it.id in h.rq ==> h.rq[it.id] == Package(it.msg, if k < m[REC_WAITS] then PUBREC else PUBLISH))
  {
    var pubs := h.log.published;
    WindowEntries(pubs, m[COMP_WIRE], |pubs|, m[REL_WAITS], PUBREL);
    WindowEntries(pubs, m[COMP_WAITS], m[PUB_WIRE], m[REC_WAITS], PUBREC);
  }

  lemma UsedHasOneToken(h: Pipe, m: Marks, k: nat)
    requires Flows(h, m) && m[COMP_WIRE] <= k < |h.log.published|
    ensures OneToken(h, h.log.published[k].id)
  {
    MarksAscend(h, m);
    SpanOfPublication(h, m, 0, STAGES, k);
    SpanOfPublication(h, m, COMP_WIRE, REL_WAITS, k);
    SpanOfPublication(h, m, COMP_WAITS, PUB_WIRE, k);
    SpanOfPublication(h, m, REC_WAITS, PUB_WIRE, k);
    WindowOfPublication(h, m, k);
  }

  lemma FreeHasNoToken(h: Pipe, m: Marks, id: Int16)
    requires Flows(h, m)
    requires forall k :: m[COMP_WIRE] <= k < |h.log.published| ==> h.log.published[k].id != id
    ensures OneToken(h, id)
  {
    var pubs := h.log.published;
    MarksAscend(h, m);
    WindowEntries(pubs, m[COMP_WIRE], |pubs|, m[REL_WAITS], PUBREL);
    WindowEntries(pubs, m[COMP_WAITS], m[PUB_WIRE], m[REC_WAITS], PUBREC);
    SpanIsUses(h, m, 0, STAGES, id);
    SpanIsUses(h, m, COMP_WAITS, PUB_WIRE, id);
    UsesNever(pubs, m[0], m[STAGES], id);
    UsesNever(pubs, m[COMP_WAITS], m[PUB_WIRE], id);
  }

  lemma FlowsHaveOneToken(h: Pipe, m: Marks, id: Int16)
    requires Flows(h, m)
    ensures OneToken(h, id)
  {
    if k :| m[COMP_WIRE] <= k < |h.log.published| && h.log.published[k].id == id {
      UsedHasOneToken(h, m, k);
    } else {
      FreeHasNoToken(h, m, id);
    }
  }

  lemma UsesWithin(pubs: seq<Item>, base: nat, lo: nat, hi: nat, k: nat)
    requires base <= lo <= hi <= |pubs| && IdsDistinct(pubs, base) && base <= k < |pubs|
    ensures Uses(pubs, lo, hi, pubs[k].id) == if lo <= k < hi then 1 else 0
  {
    if lo <= k < hi {
      UsesOnce(pubs, lo, hi, k, pubs[k].id);
    } else {
      UsesNever(pubs, lo, hi, pubs[k].id);
    }
  }

  /** In every reachable state, in both directions, every identifier of a send window is
      carried by exactly one packet, and both windows agree with where that packet is. */
  lemma EveryRunHasOneToken(es: seq<Event>, id: Int16)
    ensures Run(SendWindow, INIT, es).Some?
    ensures var p := Run(SendWindow, INIT, es).value;
            OneToken(View(p), id) && OneToken(View(Flip(p)), id)
  {
    var p, m, n := RunFromInit(es);
    FlowsHaveOneToken(View(p), m, id);
    FlowsHaveOneToken(View(Flip(p)), n, id);
  }

  // ----- nothing is lost

  ghost predicate Idle(p: Pair) {
    p.ab == [] && p.ba == [] && p.a.pending == [] && p.b.pending == []
  }

  ghost predicate AllDone(log: Log) {
    log.released == log.published && log.freed == log.published && log.stored == log.published
  }

  lemma FlowsWhenIdle(h: Pipe, m: Marks)
    requires Flows(h, m) && forall i :: 0 <= i < STAGES ==> h.queues[i] == []
    ensures AllDone(h.log) && h.sq == map[] && h.rq == map[]
    ensures Left(m) == 0
  {
    forall i | 0 <= i < STAGES ensures m[i] == m[i + 1] {
      assert Carries(h.queues[i], StageKind(i), h.log.published, m[i], m[i + 1]);
    }
    assert m[0] == m[0 + 1] && m[1] == m[1 + 1] && m[2] == m[2 + 1] && m[3] == m[3 + 1];
    assert m[4] == m[4 + 1] && m[5] == m[5 + 1] && m[6] == m[6 + 1] && m[7] == m[7 + 1];
  }

  /** Once nothing is under way, every publication has been stored and released, and all
      windows are empty. */
  lemma NothingIsLost(es: seq<Event>)
    ensures Run(SendWindow, INIT, es).Some?
    ensures var p := Run(SendWindow, INIT, es).value;
            Idle(p) ==> && AllDone(p.fromA) && AllDone(p.fromB)
                        && p.a.sq == map[] && p.a.rq == map[] && p.b.sq == map[] && p.b.rq == map[]
  {
    var p, m, n := RunFromInit(es);
    if Idle(p) {
      FlowsWhenIdle(View(p), m);
      FlowsWhenIdle(View(Flip(p)), n);
    }
  }

  /** Some end can take a step while anything is under way, and it brings the exchange
      closer to its end. */
  lemma NextStep(p: Pair, m: Marks, n: Marks) returns (e: Event, q: Pair, m': Marks, n': Marks)
    requires Inv(p, m, n) && !Idle(p)
    ensures !e.act.Start? && Step(SendWindow, p, e) == Some(q) && Inv(q, m', n')
    ensures Left(m') + Left(n') == Left(m) + Left(n) - 1
    ensures SamePublications(p, q)
  {
    var act := if p.a.pending != [] || p.b.pending != [] then Complete else Deliver;
    e := Event(if Effective(p, act) then A else B, act);
    q, m', n' := StepKeeps(p, e, m, n);
  }

  lemma LeftIsNat(p: Pair, m: Marks, n: Marks)
    requires Inv(p, m, n)
    ensures Left(m) >= 0 && Left(n) >= 0
    ensures Idle(p) ==> Left(m) + Left(n) == 0
  {
    MarksAscend(View(p), m);
    MarksAscend(View(Flip(p)), n);
    if Idle(p) {
      FlowsWhenIdle(View(p), m);
      FlowsWhenIdle(View(Flip(p)), n);
    }
  }

  /** The remaining steps of an exchange in which nothing new is started. */
  lemma {:induction false} Finish(p: Pair, m: Marks, n: Marks) returns (more: seq<Event>, end: Pair)
    requires Inv(p, m, n)
    ensures |more| == Left(m) + Left(n) && forall e :: e in more ==> !e.act.Start?
    ensures Run(SendWindow, p, more) == Some(end) && Idle(end) && SamePublications(p, end)
    decreases Left(m) + Left(n)
  {
    LeftIsNat(p, m, n);
    if Idle(p) {
      more, end := [], p;
    } else {
      var e, q, m', n' := NextStep(p, m, n);
      LeftIsNat(q, m', n');
      more, end := Finish(q, m', n');
      RunCons(p, e, q, more);
      more := [e] + more;
    }
  }

  lemma RunCons(p: Pair, e: Event, q: Pair, more: seq<Event>)
    requires Step(SendWindow, p, e) == Some(q)
    ensures Run(SendWindow, p, [e] + more) == Run(SendWindow, q, more)
  {
    assert ([e] + more)[1..] == more;
  }

  /** From every reachable state the exchange can be driven to its end by completing
      writes and handling packets alone: at most eight steps for each publication under
      way, after which all have been released. */
  lemma EveryRunCanFinish(es: seq<Event>) returns (more: seq<Event>)
    ensures forall e :: e in more ==> !e.act.Start?
    ensures Run(SendWindow, INIT, es).Some? && Run(SendWindow, INIT, es + more).Some?
    ensures var p := Run(SendWindow, INIT, es).value;
            var q := Run(SendWindow, INIT, es + more).value;
            && Idle(q)
            && q.fromA.released == p.fromA.published && q.fromB.released == p.fromB.published
            && |more| <= STAGES * (|p.fromA.published| - |p.fromA.released|)
                       + STAGES * (|p.fromB.published| - |p.fromB.released|)
  {
    var p, m, n := RunFromInit(es);
    MarksAscend(View(p), m);
    MarksAscend(View(Flip(p)), n);
    var end;
    more, end := Finish(p, m, n);
    RunJoin(SendWindow, INIT, es, more);
    NothingIsLost(es + more);
  }

  // ----- the exchange with the window the source names

  ghost predicate OneWay(es: seq<Event>) {
    forall e :: e in es && e.act.Start? ==> e.who == A
  }

  ghost predicate OnlyRecs(q: seq<Packet>) { forall x :: x in q ==> x.PubRec? }

  ghost predicate OnlyPublishes(q: seq<Packet>) { forall x :: x in q ==> x.Publish? && x.item.msg.qos == 2 }

  ghost predicate PublishesOrRels(q: seq<Packet>) {
    forall x :: x in q ==> x.PubRel? || (x.Publish? && x.item.msg.qos == 2)
  }

  /** B has not published, and no PUBREL has been written. */
  ghost predicate OnlyA(p: Pair) {
    && p.a.rq == map[]
    && OnlyRecs(p.ba) && OnlyRecs(p.b.pending)
    && OnlyPublishes(p.ab) && PublishesOrRels(p.a.pending)
    && p.fromA.freed == [] && p.fromA.released == []
  }

  /** Whether A has completed the write of a PUBREL. */
  ghost predicate RelWritten(p: Pair) {
    p.fromA.released != [] || exists id :: id in p.a.sq && p.a.sq[id].status == PUBREL
  }

  lemma RelStays(p: Pair, e: Event)
    requires RelWritten(p) && Step(SendWindow, p, e).Some?
    ensures RelWritten(Step(SendWindow, p, e).value)
  {
    var q := Step(SendWindow, p, e).value;
    if q.fromA.released == [] {
      var id :| id in p.a.sq && p.a.sq[id].status == PUBREL;
      assert id in q.a.sq && q.a.sq[id].status == PUBREL;
    }
  }

  lemma {:induction false} RelStaysRun(p: Pair, es: seq<Event>)
    requires RelWritten(p) && Run(SendWindow, p, es).Some?
    ensures RelWritten(Run(SendWindow, p, es).value)
    decreases es
  {
    if es != [] {
      RelStays(p, es[0]);
      RelStaysRun(Step(SendWindow, p, es[0]).value, es[1..]);
    }
  }

  /** As long as no PUBREL is written, it makes no difference which window is addressed;
      writing one throws with the window the source names. */
  lemma WindowsDiffer(p: Pair, e: Event)
    requires OnlyA(p) && (e.act.Start? ==> e.who == A) && !RelWritten(p)
    requires Step(SendWindow, p, e).Some?
    ensures if RelWritten(Step(SendWindow, p, e).value) then Step(ReceiveWindow, p, e) == None
            else Step(ReceiveWindow, p, e) == Step(SendWindow, p, e)
  {
    if e.who == A {
      WindowsDifferA(p, e.act);
    } else {
      WindowsDifferB(p, e.act);
    }
  }

  lemma WindowsDifferA(p: Pair, act: Act)
    requires OnlyA(p) && !RelWritten(p) && ActA(SendWindow, p, act).Some?
    ensures if RelWritten(ActA(SendWindow, p, act).value) then ActA(ReceiveWindow, p, act) == None
            else ActA(ReceiveWindow, p, act) == ActA(SendWindow, p, act)
  {
    var q := ActA(SendWindow, p, act).value;
    if act == Complete && p.a.pending != [] && p.a.pending[0].PubRel? {
      var id := p.a.pending[0].id;
      assert id in q.a.sq && q.a.sq[id].status == PUBREL;
    } else {
      if p.a.pending != [] { assert p.a.pending[0] in p.a.pending; }
      if p.ba != [] { assert p.ba[0] in p.ba; }
      assert q.fromA.released == [];
      assert forall id :: id in q.a.sq ==> q.a.sq[id].status != PUBREL;
    }
  }

  lemma WindowsDifferB(p: Pair, act: Act)
    requires OnlyA(p) && !act.Start? && !RelWritten(p) && Step(SendWindow, p, Event(B, act)).Some?
    ensures !RelWritten(Step(SendWindow, p, Event(B, act)).value)
    ensures Step(ReceiveWindow, p, Event(B, act)) == Step(SendWindow, p, Event(B, act))
  {
    if p.b.pending != [] { assert p.b.pending[0] in p.b.pending; }
    if p.ab != [] { assert p.ab[0] in p.ab; }
    var q := Step(SendWindow, p, Event(B, act)).value;
    assert q.a == p.a && q.fromA.released == [];
  }

  lemma {:induction false} AsWrittenRun(p: Pair, es: seq<Event>, m: Marks, n: Marks)
    requires OneWay(es) && OnlyA(p) && !RelWritten(p) && Inv(p, m, n)
    ensures Run(SendWindow, p, es).Some?
    ensures Run(ReceiveWindow, p, es)
         == if RelWritten(Run(SendWindow, p, es).value) then None else Run(SendWindow, p, es)
    decreases es
  {
    if es != [] {
      assert es[0] in es;
      var q, m', n' := StepKeeps(p, es[0], m, n);
      var _, _, _ := RunKeeps(q, es[1..], m', n');
      WindowsDiffer(p, es[0]);
      if RelWritten(q) {
        RelStaysRun(q, es[1..]);
      } else {
        if es[0].who == A {
          OnlyAStep(p, es[0].act);
        } else {
          OnlyBStep(p, es[0].act);
        }
        AsWrittenRun(q, es[1..], m', n');
      }
    }
  }

  /** As the source has it, with publications in one direction only: a run is the intended
      run exactly as long as no PUBREL has been written, and throws otherwise. */
  lemma AsWrittenThrowsIff(es: seq<Event>)
    requires OneWay(es)
    ensures Run(SendWindow, INIT, es).Some?
    ensures Run(ReceiveWindow, INIT, es)
         == if RelWritten(Run(SendWindow, INIT, es).value) then None else Run(SendWindow, INIT, es)
  {
    InitInv();
    AsWrittenRun(INIT, es, ZEROS, ZEROS);
  }

  /** Hence no publication ever leaves the receiver's window and no identifier is ever
      released, whatever steps are taken. */
  lemma AsWrittenNothingIsReleased(es: seq<Event>)
    requires OneWay(es)
    ensures Run(ReceiveWindow, INIT, es).Some? ==>
      var p := Run(ReceiveWindow, INIT, es).value;
      p.fromA.freed == [] && p.fromA.released == []
  {
    OnlyARun(INIT, es);
  }

  lemma {:induction false} OnlyARun(p: Pair, es: seq<Event>)
    requires OneWay(es) && OnlyA(p)
    ensures Run(ReceiveWindow, p, es).Some? ==> OnlyA(Run(ReceiveWindow, p, es).value)
    decreases es
  {
    if es != [] && Step(ReceiveWindow, p, es[0]).Some? {
      assert es[0] in es;
      if es[0].who == A {
        OnlyAStep(p, es[0].act);
      } else {
        OnlyBStep(p, es[0].act);
      }
      OnlyARun(Step(ReceiveWindow, p, es[0]).value, es[1..]);
    }
  }

  lemma OnlyAStep(p: Pair, act: Act)
    requires OnlyA(p) && ActA(ReceiveWindow, p, act).Some?
    ensures OnlyA(ActA(ReceiveWindow, p, act).value)
  {
    match act {
      case Start(_) =>
      case Complete =>
        if p.a.pending != [] {
          assert p.a.pending[0] in p.a.pending;
          assert PublishesOrRels(p.a.pending[1..]);
        }
      case Deliver =>
        if p.ba != [] {
          assert p.ba[0] in p.ba;
          assert OnlyRecs(p.ba[1..]);
          assert PublishesOrRels(p.a.pending + [PubRel(IdOf(p.ba[0]))]);
        }
    }
  }

  lemma OnlyBStep(p: Pair, act: Act)
    requires OnlyA(p) && !act.Start? && Step(ReceiveWindow, p, Event(B, act)).Some?
    ensures OnlyA(Step(ReceiveWindow, p, Event(B, act)).value)
  {
    match act {
      case Complete =>
        if p.b.pending != [] {
          assert p.b.pending[0] in p.b.pending;
          assert OnlyRecs(p.b.pending[1..]);
          assert OnlyRecs(p.ba + [p.b.pending[0]]);
        }
      case Deliver =>
        if p.ab != [] {
          assert p.ab[0] in p.ab;
          assert OnlyPublishes(p.ab[1..]);
          assert OnlyRecs(p.b.pending + [PubRec(IdOf(p.ab[0]))]);
        }
    }
  }

  // ----- the same with publications in both directions

  /** No write of a PUBREL has been completed by either end. */
  ghost predicate NoRelWritten(p: Pair) {
    !RelWritten(p) && !RelWritten(Flip(p))
  }

  lemma {:induction false} SomeRelStays(p: Pair, es: seq<Event>)
    requires !NoRelWritten(p) && Run(SendWindow, p, es).Some?
    ensures !NoRelWritten(Run(SendWindow, p, es).value)
    decreases es
  {
    if es != [] {
      if RelWritten(p) {
        RelStays(p, es[0]);
      } else {
        StepFlips(SendWindow, p, es[0]);
        RelStays(Flip(p), Opposite(es[0]));
      }
      SomeRelStays(Step(SendWindow, p, es[0]).value, es[1..]);
    }
  }

  /** The send window of end A as the source treats it: nothing ever changes in it. */
  ghost predicate NothingMoves(p: Pair) {
    p.fromA.released == [] && forall id :: id in p.a.sq ==> p.a.sq[id].status == PUBLISH
  }

  lemma NothingMovesStep(p: Pair, act: Act)
    requires AllClean(p) && NothingMoves(p) && NothingMoves(Flip(p)) && ActA(ReceiveWindow, p, act).Some?
    ensures var q := ActA(ReceiveWindow, p, act).value;
            AllClean(q) && NothingMoves(q) && NothingMoves(Flip(q))
  {
    match act {
      case Start(_) =>
      case Complete =>
        if p.a.pending != [] { assert p.a.pending[0] in p.a.pending; }
      case Deliver =>
        if p.ba != [] { assert p.ba[0] in p.ba; }
    }
  }

  lemma {:induction false} NothingMovesRun(p: Pair, es: seq<Event>)
    requires AllClean(p) && NothingMoves(p) && NothingMoves(Flip(p)) && Run(ReceiveWindow, p, es).Some?
    ensures var q := Run(ReceiveWindow, p, es).value;
            NothingMoves(q) && NothingMoves(Flip(q))
    decreases es
  {
    if es != [] {
      if es[0].who == A {
        NothingMovesStep(p, es[0].act);
      } else {
        assert AllClean(Flip(p)) && Flip(Flip(p)) == p;
        NothingMovesStep(Flip(p), es[0].act);
      }
      NothingMovesRun(Step(ReceiveWindow, p, es[0]).value, es[1..]);
    }
  }

  /** Completing a PUBREL marks its entry, and handling a PUBCOMP releases one. */
  lemma RelShows(p: Pair, act: Act, m: Marks, n: Marks)
    requires Inv(p, m, n)
    requires if act.Complete? then p.a.pending != [] && p.a.pending[0].PubRel?
             else act.Deliver? && p.ba != [] && p.ba[0].PubComp?
    ensures ActA(SendWindow, p, act).Some? && RelWritten(ActA(SendWindow, p, act).value)
  {
    if act.Complete? {
      PopView(p.a.pending);
      var m' := OwnMoveKeeps(View(p), m, REL_WAITS);
      var q := WriteRelView(p);
      MoveMarks(View(p));
      assert View(q).sq == q.a.sq;
    } else {
      PopView(p.ba);
      var m' := OwnMoveKeeps(View(p), m, COMP_WIRE);
      var q := GetCompView(p);
      MoveReleases(View(p));
      assert View(q).log == q.fromA;
    }
  }

  lemma MoveMarks(h: Pipe)
    requires Enabled(h, REL_WAITS)
    ensures exists id :: id in Move(h, REL_WAITS).sq && Move(h, REL_WAITS).sq[id].status == PUBREL
  {
    var id := IdOf(h.queues[REL_WAITS][0]);
    assert id in Move(h, REL_WAITS).sq && Move(h, REL_WAITS).sq[id].status == PUBREL;
  }

  lemma MoveReleases(h: Pipe)
    requires Enabled(h, COMP_WIRE)
    ensures Move(h, COMP_WIRE).log.released != []
  {
  }

  /** A step of end A that completes no PUBREL and releases nothing does not address the
      window in question. */
  lemma WindowUnused(p: Pair, act: Act, m: Marks, n: Marks)
    requires Inv(p, m, n) && ActA(SendWindow, p, act).Some? && !RelWritten(ActA(SendWindow, p, act).value)
    ensures ActA(ReceiveWindow, p, act) == ActA(SendWindow, p, act)
  {
    var touches := if act.Complete? then p.a.pending != [] && p.a.pending[0].PubRel?
                   else act.Deliver? && p.ba != [] && p.ba[0].PubComp?;
    if touches {
      RelShows(p, act, m, n);
    }
  }

  lemma StepUnused(p: Pair, e: Event, q: Pair, m: Marks, n: Marks)
    requires Inv(p, m, n) && Step(SendWindow, p, e) == Some(q)
    requires NoRelWritten(q)
    ensures Step(ReceiveWindow, p, e) == Some(q)
  {
    if e.who == A {
      WindowUnused(p, e.act, m, n);
    } else {
      FlipInv(p, m, n);
      assert Flip(Flip(q)) == q;
      WindowUnused(Flip(p), e.act, n, m);
    }
  }

  lemma {:induction false} AgreesRun(p: Pair, es: seq<Event>, m: Marks, n: Marks)
    requires Inv(p, m, n) && NoRelWritten(p) && NothingMoves(p) && NothingMoves(Flip(p))
    ensures Run(SendWindow, p, es).Some?
    ensures Run(ReceiveWindow, p, es) == Run(SendWindow, p, es) <==> NoRelWritten(Run(SendWindow, p, es).value)
    decreases es
  {
    var r, _, _ := RunKeeps(p, es, m, n);
    if Run(ReceiveWindow, p, es) == Some(r) {
      NothingMovesRun(p, es);
      assert NoRelWritten(r);
    }
    if es != [] {
      var q, m', n' := StepKeeps(p, es[0], m, n);
      if NoRelWritten(q) {
        StepUnused(p, es[0], q, m, n);
        if es[0].who == A {
          NothingMovesStep(p, es[0].act);
        } else {
          FlipInv(p, m, n);
          NothingMovesStep(Flip(p), es[0].act);
        }
        AgreesRun(q, es[1..], m', n');
      } else {
        SomeRelStays(q, es[1..]);
      }
    }
  }

  /** As the source has it, with both ends publishing: a run is the intended run exactly as
      long as no PUBREL has been written, and no identifier is ever released. */
  lemma AsWrittenAgreesIff(es: seq<Event>)
    ensures Run(SendWindow, INIT, es).Some?
    ensures Run(ReceiveWindow, INIT, es) == Run(SendWindow, INIT, es) <==> NoRelWritten(Run(SendWindow, INIT, es).value)
    ensures Run(ReceiveWindow, INIT, es).Some? ==>
              var p := Run(ReceiveWindow, INIT, es).value;
              p.fromA.released == [] && p.fromB.released == []
  {
    InitInv();
    AgreesRun(INIT, es, ZEROS, ZEROS);
    if Run(ReceiveWindow, INIT, es).Some? {
      NothingMovesRun(INIT, es);
    }
  }

  /** The steps of an undisturbed exchange up to the writing of the PUBREL. */
  function FirstSixSteps(it: Item): seq<Event> {
    [Event(A, Start(it)), Event(A, Complete), Event(B, Deliver), Event(B, Complete), Event(A, Deliver),
     Event(A, Complete)]
  }

  /** As the source has it, even an undisturbed exchange throws at its sixth step. */
  lemma AsWrittenFirstExchangeThrows(it: Item)
    requires it.msg.qos == 2
    ensures Run(ReceiveWindow, INIT, FirstSixSteps(it)) == None
    ensures Run(ReceiveWindow, INIT, FirstSixSteps(it)[..5]).Some?
  {
    var es := FirstSixSteps(it);
    var w := ReceiveWindow;
    var p1 := Step(w, INIT, es[0]).value;
    assert p1.a.pending == [Publish(it)] && p1.ab == [] && p1.ba == [] && p1.b == EMPTY_SIDE;
    var p2 := Step(w, p1, es[1]).value;
    assert p2.ab == [Publish(it)] && p2.a == p1.a.(pending := []) && p2.ba == [] && p2.b == EMPTY_SIDE;
    var p3 := Step(w, p2, es[2]).value;
    assert p3.b.pending == [PubRec(it.id)] && it.id in p3.b.rq && p3.a == p2.a && p3.ba == [];
    var p4 := Step(w, p3, es[3]).value;
    assert p4.ba == [PubRec(it.id)] && p4.a == p2.a;
    var p5 := Step(w, p4, es[4]).value;
    assert p5.a == p2.a.(pending := [PubRel(it.id)]) && p5.a.rq == map[];
    assert Step(w, p5, es[5]) == None;
    RunSteps(w, INIT, es, [INIT, p1, p2, p3, p4, p5]);
  }

  lemma {:induction false} RunSteps(w: Window, p: Pair, es: seq<Event>, ps: seq<Pair>)
    requires |es| == |ps| && ps != [] && ps[0] == p
    requires forall k :: 0 <= k < |ps| - 1 ==> Step(w, ps[k], es[k]) == Some(ps[k + 1])
    ensures Run(w, p, es[..|es| - 1]) == Some(ps[|ps| - 1])
    ensures Run(w, p, es) == Step(w, ps[|ps| - 1], es[|es| - 1])
    decreases es
  {
    if |es| > 1 {
      RunSteps(w, ps[1], es[1..], ps[1..]);
      assert es[..|es| - 1][1..] == es[1..][..|es| - 2];
    } else if Step(w, p, es[0]).Some? {
      RunNone(w, Step(w, p, es[0]).value, es[1..]);
    }
  }

  lemma RunNone(w: Window, p: Pair, es: seq<Event>)
    requires es == []
    ensures Run(w, p, es) == Some(p)
  {
  }
}
