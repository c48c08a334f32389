/** Each end of a pair is an endpoint with an arbitrary peer, so that what is proved of the
    receive window in module ReceiveWindow says when a callback throws in a run of the pair
    with the window the source names. */
module Qos2History {
  import opened Basics
  import opened Qos2Client
  import opened Qos2Pair
  import opened ReceiveWindow

  /** What a step of the pair is for end A. */
  function InputOf(p: Pair, e: Event): seq<Input> {
    if e.who == B then []
    else match e.act
      case Start(it) => if it.id in p.a.sq || it.msg.qos != 2 then [] else [Begin(it)]
      case Deliver => if p.ba == [] then [] else [Got(p.ba[0])]
      case Complete => [WriteDone(true)]
  }

  function Inputs(w: Window, p: Pair, es: seq<Event>): seq<Input>
    decreases es
  {
    if es == [] then []
    else InputOf(p, es[0]) + match Step(w, p, es[0])
      case None => []
      case Some(q) => Inputs(w, q, es[1..])
  }

  lemma TraceOne(w: Window, s: Side, h: seq<Sign>, x: Input, rest: seq<Input>)
    requires Feed(w, s, x).Some?
    ensures Trace(w, s, h, [x] + rest) == Trace(w, Feed(w, s, x).value.0, h + Feed(w, s, x).value.1, rest)
  {
    assert ([x] + rest)[1..] == rest;
  }

  /** A step that does not throw takes end A where its input takes the endpoint. */
  lemma StepIsInput(w: Window, p: Pair, e: Event)
    requires Step(w, p, e).Some?
    ensures var q := Step(w, p, e).value;
            if InputOf(p, e) == [] then q.a == p.a
            else |InputOf(p, e)| == 1 && Feed(w, p.a, InputOf(p, e)[0]).Some?
                 && Feed(w, p.a, InputOf(p, e)[0]).value.0 == q.a
  {
  }

  lemma {:induction false} EndIsTrace(w: Window, p: Pair, es: seq<Event>, h: seq<Sign>)
    requires Run(w, p, es).Some?
    ensures var r := Trace(w, p.a, h, Inputs(w, p, es));
            r.Some? && r.value.0 == Run(w, p, es).value.a
    decreases es
  {
    if es != [] {
      var q := Step(w, p, es[0]).value;
      var xs, rest := InputOf(p, es[0]), Inputs(w, q, es[1..]);
      StepIsInput(w, p, es[0]);
      if xs == [] {
        assert [] + rest == rest;
        EndIsTrace(w, q, es[1..], h);
      } else {
        TraceOne(w, p.a, h, xs[0], rest);
        assert xs == [xs[0]];
        EndIsTrace(w, q, es[1..], h + Feed(w, p.a, xs[0]).value.1);
      }
    }
  }

  // ----- runs step by step

  lemma {:induction false} RunPush(w: Window, p: Pair, es: seq<Event>)
    requires es != []
    ensures Run(w, p, es) == match Run(w, p, es[..|es| - 1])
            case None => None
            case Some(q) => Step(w, q, es[|es| - 1])
    decreases es
  {
    var q := Step(w, p, es[0]);
    if |es| > 1 {
      assert es[..|es| - 1][1..] == es[1..][..|es| - 2];
      if q.Some? {
        RunPush(w, q.value, es[1..]);
      }
    } else {
      assert es[1..] == [] && es[..0] == [];
      assert Run(w, p, []) == Some(p);
      if q.Some? { assert Run(w, q.value, []) == q; }
    }
  }

  function Mirror(es: seq<Event>): seq<Event> {
    if es == [] then [] else [Opposite(es[0])] + Mirror(es[1..])
  }

  lemma {:induction false} RunMirror(w: Window, p: Pair, es: seq<Event>)
    ensures Run(w, Flip(p), Mirror(es)) == match Run(w, p, es) case None => None case Some(q) => Some(Flip(q))
    decreases es
  {
    if es != [] {
      StepFlips(w, p, es[0]);
      assert Mirror(es)[1..] == Mirror(es[1..]) && Mirror(es)[0] == Opposite(es[0]);
      if Step(w, p, es[0]).Some? {
        RunMirror(w, Step(w, p, es[0]).value, es[1..]);
      }
    }
  }

  // ----- when the pair throws

  /** The signs that end A of a run has seen. */
  function History(w: Window, es: seq<Event>): seq<Sign> {
    match Trace(w, EMPTY_SIDE, [], Inputs(w, INIT, es))
    case None => []
    case Some(r) => r.1
  }

  /** The signs that either end has seen. */
  function HistoryOf(w: Window, es: seq<Event>, who: End): seq<Sign> {
    History(w, if who == A then es else Mirror(es))
  }

  function EndSide(p: Pair, who: End): Side { if who == A then p.a else p.b }

  /** Behind the run es, e completes a write whose callback looks an identifier up for which
      no PUBLISH has reached that end since it last left there. */
  ghost predicate FindsNothing(es: seq<Event>, e: Event) {
    var p := Run(Window.ReceiveWindow, INIT, es);
    p.Some? && e.act.Complete? &&
    var s := EndSide(p.value, e.who);
    s.pending != [] && LooksUp(Window.ReceiveWindow, s.pending[0], true) &&
    forall k :: !Current(HistoryOf(Window.ReceiveWindow, es, e.who), IdOf(s.pending[0]), k)
  }

  lemma EndThrowsIff(es: seq<Event>, act: Act)
    requires Run(Window.ReceiveWindow, INIT, es).Some?
    ensures var p := Run(Window.ReceiveWindow, INIT, es).value;
            ActA(Window.ReceiveWindow, p, act) == None <==>
              act.Complete? && p.a.pending != [] && LooksUp(Window.ReceiveWindow, p.a.pending[0], true)
              && forall k :: !Current(History(Window.ReceiveWindow, es), IdOf(p.a.pending[0]), k)
  {
    var w := Window.ReceiveWindow;
    var p := Run(w, INIT, es).value;
    var xs := Inputs(w, INIT, es);
    assert INIT.a == EMPTY_SIDE;
    EndIsTrace(w, INIT, es, []);
    var (s, h) := Trace(w, EMPTY_SIDE, [], xs).value;
    assert s == p.a && h == History(w, es);
    CompletionThrowsIff(w, xs, true);
    if act.Complete? && p.a.pending != [] {
      assert ActA(w, p, act) == None <==> Feed(w, p.a, WriteDone(true)) == None;
    }
  }

  lemma StepThrowsIff(es: seq<Event>, e: Event)
    requires Run(Window.ReceiveWindow, INIT, es).Some?
    ensures Step(Window.ReceiveWindow, Run(Window.ReceiveWindow, INIT, es).value, e) == None <==> FindsNothing(es, e)
  {
    var w := Window.ReceiveWindow;
    var p := Run(w, INIT, es).value;
    if e.who == A {
      EndThrowsIff(es, e.act);
      assert HistoryOf(w, es, e.who) == History(w, es);
      assert EndSide(p, e.who) == p.a;
    } else {
      RunMirror(w, INIT, es);
      assert Run(w, INIT, Mirror(es)) == Some(Flip(p));
      EndThrowsIff(Mirror(es), e.act);
      assert HistoryOf(w, es, e.who) == History(w, Mirror(es));
      assert EndSide(p, e.who) == Flip(p).a;
    }
  }

  /** As the source has it, with both ends publishing: a run throws exactly when some step of
      it completes a write whose callback looks an identifier up that no PUBLISH has brought
      to that end since it last left there. */
  lemma {:induction false} AsWrittenRunThrowsIff(es: seq<Event>)
    ensures Run(Window.ReceiveWindow, INIT, es) == None <==>
              exists k :: 0 <= k < |es| && FindsNothing(es[..k], es[k])
    decreases |es|
  {
    if es != [] {
      var n := |es| - 1;
      var before := es[..n];
      RunPush(Window.ReceiveWindow, INIT, es);
      AsWrittenRunThrowsIff(before);
      forall k | 0 <= k < n ensures before[..k] == es[..k] && before[k] == es[k] { }
      if Run(Window.ReceiveWindow, INIT, before).Some? {
        StepThrowsIff(before, es[n]);
      }
    }
  }
}
