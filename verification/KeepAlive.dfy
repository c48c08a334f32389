/** The keep-alive timer of src/MqttSession.hpp, in whole seconds and with a timer that
    fires on time. */
module KeepAlive {
  import opened Basics

  /** ACTIVE_TIME of src/mqtt/Protocol.hpp. */
  const ACTIVE_TIME := 60

  /** What a timer is set to: any time, also one in the past, or none, the value of a timer
      that was never set, which stays none whatever is added to it. */
  type Expiry = Option<int>

  function Later(e: Expiry, seconds: nat): Expiry {
    match e
    case None => None
    case Some(t) => Some(t + seconds)
  }

  /** The clock, the last activity, what the timer is set to, and whether the session has
      been closed. */
  datatype Watch = Watch(now: nat, atime: nat, expiry: Expiry, closed: bool)

  /** Whether the timer is set to a time to come. */
  predicate Ahead(w: Watch) { w.expiry.Some? && w.now <= w.expiry.value }

  /** Activity at time t, or the timer firing at time t. */
  datatype Event = Stamp(t: nat) | Fire(t: nat)

  /** Login at time t: the activity is stamped, and a minute is added to what the timer
      holds. */
  function Login(t: nat, held: Expiry): Watch { Watch(t, t, Later(held, ACTIVE_TIME), false) }

  /** Time does not run backwards. A timer that is set to a time to come fires at that time,
      and nothing happens behind it; one that is overdue, or not set, fires within the second,
      and again until it has caught up. */
  predicate Possible(w: Watch, e: Event) {
    !w.closed && w.atime <= w.now <= e.t &&
    if Ahead(w) then (if e.Fire? then e.t == w.expiry.value else e.t <= w.expiry.value)
    else e.t <= w.now + 1
  }

  function Step(w: Watch, e: Event): Watch
    requires Possible(w, e)
  {
    match e
    case Stamp(t) => w.(now := t, atime := t)
    case Fire(t) =>
      var idle := t - w.atime;
      if idle > ACTIVE_TIME then w.(now := t, closed := true)
      else w.(now := t, expiry := Later(w.expiry, idle))
  }

  /** The session's part in it. */
  class Session {
    var atime: nat
    var expiry: Expiry
    var closed: bool

    ghost function State(now: nat): Watch
      reads this
    {
      Watch(now, atime, expiry, closed)
    }

    /** The constructor gives the timer no time; it holds whatever a new timer holds. */
    constructor (now: nat, held: Expiry)
      ensures State(now) == Watch(now, now, held, false)
    {
      atime, expiry, closed := now, held, false;
    }

    /** func_OnLogin. */
    method OnLogin(now: nat)
      modifies this
      ensures State(now) == Login(now, old(expiry)).(closed := old(closed))
    {
      atime := now;
      DoActive(ACTIVE_TIME);
    }

    /** func_OnWrite, and the stamp taken for every message read. */
    method OnActivity(now: nat)
      modifies `atime
      ensures atime == now
    {
      atime := now;
    }

    /** do_active: the new time counts from the one the timer was set to before. */
    method DoActive(later: nat)
      modifies `expiry
      ensures expiry == Later(old(expiry), later)
    {
      expiry := Later(expiry, later);
    }

    /** The handler of the timer. */
    method OnTimer(ghost before: nat, now: nat)
      requires Possible(State(before), Fire(now))
      modifies this
      ensures State(now) == Step(old(State(before)), Fire(now))
    {
      if now - atime > ACTIVE_TIME {
        closed := true;
      } else {
        DoActive(now - atime);
      }
    }
  }

  // ----- every run

  /** A login at time start, with a timer that holds the given time or none, and what
      follows. */
  datatype Run = Run(start: nat, held: Expiry, events: seq<Event>)

  /** The state after the first k events; None if one of them is not possible. */
  function After(r: Run, k: nat): Option<Watch>
    requires k <= |r.events|
  {
    if k == 0 then Some(Login(r.start, r.held))
    else
      var w :- After(r, k - 1);
      if Possible(w, r.events[k - 1]) then Some(Step(w, r.events[k - 1])) else None
  }

  /** At most two minutes idle, and closed only when idle for more than one. */
  predicate WithinBound(w: Watch) {
    && w.now - w.atime <= 2 * ACTIVE_TIME
    && (w.closed ==> ACTIVE_TIME < w.now - w.atime)
  }

  /** A timer that holds no time later than a minute after the login. */
  predicate HeldInTime(start: nat, held: Expiry) {
    held.Some? ==> held.value <= start + ACTIVE_TIME
  }

  /** What keeps a session within the bound: the timer is set to no later than two minutes
      after the last activity, and when it is overdue the idle time is at most a minute. */
  predicate InTime(w: Watch) {
    w.atime <= w.now && WithinBound(w) &&
    (!w.closed ==> if Ahead(w) then w.expiry.value <= w.atime + 2 * ACTIVE_TIME
                   else w.now <= w.atime + ACTIVE_TIME)
  }

  lemma {:induction false} StaysInTime(r: Run, k: nat)
    requires k <= |r.events| && After(r, k).Some? && HeldInTime(r.start, r.held)
    ensures InTime(After(r, k).value)
  {
    if k > 0 {
      StaysInTime(r, k - 1);
    }
  }

  /** Every run from a login at time start stays within the bound. */
  ghost predicate AlwaysWithinBound(start: nat, held: Expiry) {
    forall r: Run, k: nat ::
      r.start == start && r.held == held && k <= |r.events| && After(r, k).Some? ==> WithinBound(After(r, k).value)
  }

  /** An open session is idle for at most two minutes, and a session is closed only at an idle
      time above one and at most two minutes, in every run exactly when the timer held no
      later time at the login than a minute after it, or none at all. */
  lemma IdleBoundIff(start: nat, held: Expiry)
    ensures AlwaysWithinBound(start, held) <==> HeldInTime(start, held)
  {
    if HeldInTime(start, held) {
      forall r: Run, k: nat | r.start == start && r.held == held && k <= |r.events| && After(r, k).Some?
        ensures WithinBound(After(r, k).value)
      {
        StaysInTime(r, k);
      }
    } else {
      FiresLate(start, held);
    }
  }

  /** With a later time the timer first fires after more than two minutes. */
  lemma FiresLate(start: nat, held: Expiry)
    requires !HeldInTime(start, held)
    ensures !AlwaysWithinBound(start, held)
  {
    var r := Run(start, held, [Fire(held.value + ACTIVE_TIME)]);
    assert After(r, 0) == Some(Login(start, held));
    assert After(r, 1).Some? && !WithinBound(After(r, 1).value);
  }

  /** A timer that was never set stays so. The session is then closed in the first second in
      which it has been idle for more than a minute. */
  lemma {:induction false} NeverSet(r: Run, k: nat)
    requires k <= |r.events| && After(r, k).Some? && r.held == None
    ensures var w := After(r, k).value;
            && w.expiry == None && w.atime <= w.now
            && if w.closed then w.now == w.atime + ACTIVE_TIME + 1 else w.now <= w.atime + ACTIVE_TIME
  {
    if k > 0 {
      NeverSet(r, k - 1);
    }
  }

  /** No gap above a minute: whenever anything happens, the last activity is at most a
      minute ago. */
  ghost predicate Busy(r: Run, k: nat)
    requires k <= |r.events|
  {
    k > 0 ==>
      && Busy(r, k - 1)
      && var w := After(r, k - 1);
         w.Some? ==> r.events[k - 1].t <= w.value.atime + ACTIVE_TIME
  }

  /** Such a session is never closed, whatever the timer held at the login. */
  lemma {:induction false} BusyStaysOpen(r: Run, k: nat)
    requires k <= |r.events| && After(r, k).Some? && Busy(r, k)
    ensures !After(r, k).value.closed
  {
    if k > 0 {
      BusyStaysOpen(r, k - 1);
    }
  }

  // ----- once idle

  /** The next firing of a timer that is set to a time to come. */
  function Next(w: Watch): Event
    requires Ahead(w)
  {
    Fire(w.expiry.value)
  }

  /** The timer firing n times without activity, or until the session is closed. */
  function Fires(w: Watch, n: nat): Watch
    decreases n
  {
    if n == 0 || !Ahead(w) || !Possible(w, Next(w)) then w else Fires(Step(w, Next(w)), n - 1)
  }

  function Doubled(d: nat, k: nat): nat { if k == 0 then d else 2 * Doubled(d, k - 1) }

  lemma {:induction false} FiresPush(w: Watch, n: nat)
    requires n > 0
    ensures Fires(w, n) == Fires(Fires(w, n - 1), 1)
    decreases n
  {
    if n > 1 && Ahead(w) && Possible(w, Next(w)) {
      FiresPush(Step(w, Next(w)), n - 1);
    }
  }

  /** Each firing doubles the idle time as long as it is at most a minute. */
  lemma {:induction false} FiringDoubles(w: Watch, d: nat, k: nat)
    requires !w.closed && w.atime <= w.now && w.now == w.atime + d && w.expiry == Some(w.atime + 2 * d) && 0 < d
    requires forall j :: 0 < j <= k ==> Doubled(d, j) <= ACTIVE_TIME
    ensures var v := Fires(w, k);
            v == Watch(w.atime + Doubled(d, k), w.atime, Some(w.atime + 2 * Doubled(d, k)), false)
  {
    if k > 0 {
      FiringDoubles(w, d, k - 1);
      FiresPush(w, k);
      assert Doubled(d, k) <= ACTIVE_TIME;
      var u := Fires(w, k - 1);
      assert Fires(u, 1) == Step(u, Next(u)) by { assert Fires(Step(u, Next(u)), 0) == Step(u, Next(u)); }
    }
  }

  /** What such a firing leaves behind. */
  lemma FiredOnTime(v: Watch, d: nat)
    requires Ahead(v) && v.expiry.value == v.atime + d && d <= ACTIVE_TIME && Possible(v, Next(v))
    ensures Step(v, Next(v)) == Watch(v.atime + d, v.atime, Some(v.atime + 2 * d), false)
  {
  }

  /** After a firing with idle time d between one second and a minute, and without further
      activity, the session is closed by the first firing k for which d times 2 to the k
      is above a minute: at most the sixth, and at an idle time of at most two minutes. */
  lemma ClosesWithinSix(w: Watch, d: nat) returns (k: nat)
    requires !w.closed && w.now == w.atime + d && w.expiry == Some(w.atime + 2 * d) && 1 <= d <= ACTIVE_TIME
    ensures 1 <= k <= 6
    ensures ACTIVE_TIME < Doubled(d, k) <= 2 * ACTIVE_TIME
    ensures Fires(w, k) == w.(now := w.atime + Doubled(d, k), expiry := Some(w.atime + Doubled(d, k)), closed := true)
    ensures forall j :: 0 <= j < k ==> !Fires(w, j).closed
  {
    k := 1;
    while Doubled(d, k) <= ACTIVE_TIME
      invariant 1 <= k <= 6
      invariant Doubled(d, k - 1) <= ACTIVE_TIME && Doubled(d, k - 1) >= Doubled(1, k - 1)
      invariant forall j :: 0 <= j < k ==> Doubled(d, j) <= ACTIVE_TIME
      decreases 6 - k
    {
      assert Doubled(1, 5) == 32 && Doubled(1, 6) == 64;
      k := k + 1;
    }
    forall j | 0 <= j < k ensures !Fires(w, j).closed {
      FiringDoubles(w, d, j);
    }
    FiringDoubles(w, d, k - 1);
    FiresPush(w, k);
    var u := Fires(w, k - 1);
    assert Fires(Step(u, Next(u)), 0) == Step(u, Next(u));
  }

  /** A firing in the very second of the last activity sets the timer to the same second
      again, and changes nothing. */
  lemma {:induction false} ZeroIdleSpins(w: Watch, n: nat)
    requires !w.closed && w.now == w.atime && w.expiry == Some(w.now)
    ensures Fires(w, n) == w
  {
    if n > 0 {
      ZeroIdleSpins(w, n - 1);
    }
  }
}
