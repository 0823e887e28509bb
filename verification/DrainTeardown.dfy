/** The scaled teardown of the daemon: every executor that is live when a stop is requested
    gets a grace period, and the force-release timer is re-armed as executors settle. */
module DrainTeardown {
  import opened Json

  /** A controller holds the handle of the timer it armed, until it is cancelled. */
  datatype Controller = Controller(handle: Option<nat>)

  /** The teardown's flags and controller, and the timers armed in the event loop, by
      handle. */
  datatype Teardown = Teardown(
    stopRequested: bool,
    forceReleased: bool,
    current: Option<Controller>,
    armed: map<nat, nat>,
    nextHandle: nat)

  const INITIAL := Teardown(false, false, None, map[], 0)

  function Arm(t: Teardown, now: nat, live: nat, budget: nat): Teardown {
    t.(armed := t.armed[t.nextHandle := now + budget * (if live == 0 then 1 else live)],
       current := Some(Controller(Some(t.nextHandle))),
       nextHandle := t.nextHandle + 1)
  }

  function Cancelled(t: Teardown): Teardown {
    if t.current.None? || t.current.value.handle.None? then t
    else t.(armed := t.armed - {t.current.value.handle.value}, current := Some(Controller(None)))
  }

  function Stopped(t: Teardown, now: nat, live: nat, budget: nat): Teardown {
    if t.stopRequested then t else Arm(t.(stopRequested := true), now, live, budget)
  }

  function Settled(t: Teardown, now: nat, live: nat, budget: nat): Teardown {
    if !t.stopRequested || t.forceReleased then t else Arm(Cancelled(t), now, live, budget)
  }

  function Fired(t: Teardown, handle: nat): Teardown {
    t.(armed := t.armed - {handle}, forceReleased := true)
  }

  /** The closures of the teardown as an object.  The clock and the number of live executors
      are the daemon's. */
  class ScaledDaemonTeardown {
    const perExecutorTimeout: nat
    var stopRequested: bool
    var forceReleased: bool
    var current: Option<Controller>
    var armed: map<nat, nat>
    var nextHandle: nat

    constructor (perExecutorTimeout: nat)
      ensures this.perExecutorTimeout == perExecutorTimeout && View() == INITIAL
    {
      this.perExecutorTimeout := perExecutorTimeout;
      stopRequested, forceReleased, current, armed, nextHandle := false, false, None, map[], 0;
    }

    function View(): Teardown
      reads this
    {
      Teardown(stopRequested, forceReleased, current, armed, nextHandle)
    }

    method ArmTimer(now: nat, liveExecutorCount: nat)
      modifies this
      ensures View() == Arm(old(View()), now, liveExecutorCount, perExecutorTimeout)
    {
      var liveExecutors := if liveExecutorCount > 1 then liveExecutorCount else 1;
      armed := armed[nextHandle := now + perExecutorTimeout * liveExecutors];
      current := Some(Controller(Some(nextHandle)));
      nextHandle := nextHandle + 1;
    }

    method RequestStop(now: nat, liveExecutorCount: nat)
      modifies this
      ensures View() == Stopped(old(View()), now, liveExecutorCount, perExecutorTimeout)
    {
      if stopRequested {
        return;
      }
      stopRequested := true;
      ArmTimer(now, liveExecutorCount);
    }

    method Cancel()
      modifies this
      ensures View() == Cancelled(old(View()))
    {
      if current.None? || current.value.handle.None? {
        return;
      }
      armed := armed - {current.value.handle.value};
      current := Some(Controller(None));
    }

    method ExecutorSettled(now: nat, liveExecutorCount: nat)
      modifies this
      ensures View() == Settled(old(View()), now, liveExecutorCount, perExecutorTimeout)
    {
      if !stopRequested || forceReleased {
        return;
      }
      Cancel();
      ArmTimer(now, liveExecutorCount);
    }

    /** The callback of a timer that has run out. */
    method OnForceRelease(handle: nat)
      modifies this
      ensures View() == Fired(old(View()), handle)
    {
      armed := armed - {handle};
      forceReleased := true;
    }
  }

  /** The teardown among the executors, with what has happened so far. */
  datatype State = State(
    teardown: Teardown,
    now: nat,
    live: nat,
    releases: nat,
    stoppedAt: nat,
    liveAtStop: nat,
    drainedAt: Option<nat>,
    releasedAt: Option<nat>)

  const START := State(INITIAL, 0, 0, 0, 0, 0, None, None)

  // ---------- the daemon around the teardown ----------

  datatype Event =
    | Wait(until: nat)
    | Start
    | Stop
    | Settle
    | Fire(handle: nat)

  /** What may happen next.  Timers are punctual: time does not pass an armed deadline.  No
      executor starts after a stop. */
  predicate Enabled(s: State, e: Event) {
    match e
    case Wait(until) => s.now <= until && forall h :: h in s.teardown.armed ==> until <= s.teardown.armed[h]
    case Start => !s.teardown.stopRequested
    case Stop => true
    case Settle => s.live > 0
    case Fire(h) => h in s.teardown.armed && s.teardown.armed[h] == s.now
  }

  function Happen(s: State, e: Event, budget: nat): State
    requires Enabled(s, e)
  {
    match e
    case Wait(until) => s.(now := until)
    case Start => s.(live := s.live + 1)
    case Stop =>
      var t := s.(teardown := Stopped(s.teardown, s.now, s.live, budget));
      if s.teardown.stopRequested then t else t.(stoppedAt := s.now, liveAtStop := s.live)
    case Settle =>
      s.(live := s.live - 1,
         teardown := Settled(s.teardown, s.now, s.live - 1, budget),
         drainedAt := if s.teardown.stopRequested && s.live == 1 then Some(s.now) else s.drainedAt)
    case Fire(h) =>
      s.(teardown := Fired(s.teardown, h), releases := s.releases + 1, releasedAt := Some(s.now))
  }

  /** The state after a run of events, if each was enabled in its turn. */
  function After(es: seq<Event>, budget: nat): Option<State> {
    if es == [] then Some(START)
    else
      var before := After(es[..|es| - 1], budget);
      if before.None? || !Enabled(before.value, es[|es| - 1]) then None
      else Some(Happen(before.value, es[|es| - 1], budget))
  }

  // ---------- the bound ----------

  /** The time `n` executors may take when each uses the whole of its turn. */
  function Total(budget: nat, n: nat): nat {
    if n == 0 then 0 else Total(budget, n - 1) + budget * n
  }

  lemma Distribute(a: nat, b: nat, c: nat)
    ensures a * b + a * c == a * (b + c)
  {
  }

  lemma TwiceATurn(budget: nat, n: nat)
    ensures 2 * (budget * n) == budget * (2 * n)
  {
  }

  lemma {:induction false} TotalIsQuadratic(budget: nat, n: nat)
    ensures 2 * Total(budget, n) == budget * (n * (n + 1))
  {
    if n == 0 {
    } else {
      var m := n - 1;
      TotalIsQuadratic(budget, m);
      TwiceATurn(budget, n);
      Distribute(budget, m * n, 2 * n);
      Distribute(n, m, 2);
      assert m * n + 2 * n == n * (n + 1);
    }
  }

  /** The deadline in force, so far as the executors still live may push it out. */
  predicate Bounded(s: State, budget: nat, deadline: nat) {
    && s.now <= deadline
    && (s.live > 0 ==> deadline + Total(budget, s.live - 1) <= s.stoppedAt + Total(budget, s.liveAtStop))
  }

  predicate InTime(s: State, budget: nat, t: Option<nat>) {
    t.Some? && t.value <= s.stoppedAt + Total(budget, s.liveAtStop)
  }

  /** The drain is over, by completion or by force, and was over in time. */
  predicate EndedInTime(s: State, budget: nat) {
    InTime(s, budget, s.drainedAt) || InTime(s, budget, s.releasedAt)
  }

  predicate BeforeStop(s: State) {
    && s.teardown.armed == map[] && s.releases == 0 && !s.teardown.forceReleased
    && s.drainedAt.None? && s.releasedAt.None?
  }

  predicate Draining(s: State, budget: nat) {
    && s.releases == 0 && s.releasedAt.None?
    && s.teardown.current.Some? && s.teardown.current.value.handle.Some?
    && (s.liveAtStop > 0 && s.live == 0 ==> InTime(s, budget, s.drainedAt))
    && var h := s.teardown.current.value.handle.value;
       h < s.teardown.nextHandle && s.teardown.armed.Keys == {h} && Bounded(s, budget, s.teardown.armed[h])
  }

  predicate Released(s: State, budget: nat) {
    && s.releases == 1 && s.teardown.armed == map[]
    && (s.liveAtStop > 0 ==> EndedInTime(s, budget))
  }

  predicate Inv(s: State, budget: nat) {
    if !s.teardown.stopRequested then BeforeStop(s)
    else
      && (s.drainedAt.Some? ==> s.live == 0)
      && if s.teardown.forceReleased then Released(s, budget) else Draining(s, budget)
  }

  lemma HappenKeepsInv(s: State, e: Event, budget: nat)
    requires Inv(s, budget) && Enabled(s, e)
    ensures Inv(Happen(s, e, budget), budget)
  {
    if s.teardown.stopRequested && !s.teardown.forceReleased {
      var h := s.teardown.current.value.handle.value;
      assert h in s.teardown.armed;
      if e.Settle? {
        SettleKeepsInv(s, budget);
      } else if e.Fire? {
        assert e.handle == h;
        assert s.live > 0 ==> s.teardown.armed[h] <= s.teardown.armed[h] + Total(budget, s.live - 1);
      }
    }
  }

  lemma SettleKeepsInv(s: State, budget: nat)
    requires Inv(s, budget) && s.live > 0 && s.teardown.stopRequested && !s.teardown.forceReleased
    ensures Inv(Happen(s, Settle, budget), budget)
  {
    var h := s.teardown.current.value.handle.value;
    var t := Happen(s, Settle, budget);
    assert t.teardown.armed.Keys == {s.teardown.nextHandle};
    assert s.now <= s.teardown.armed[h];
    if s.live > 1 {
      assert Total(budget, s.live - 1) == Total(budget, s.live - 2) + budget * (s.live - 1);
    }
  }

  lemma {:induction false} RunKeepsInv(es: seq<Event>, budget: nat)
    requires After(es, budget).Some?
    ensures Inv(After(es, budget).value, budget)
  {
    hide Inv, Happen, Enabled;
    if es == [] {
      StartInv(budget);
    } else {
      RunKeepsInv(es[..|es| - 1], budget);
      HappenKeepsInv(After(es[..|es| - 1], budget).value, es[|es| - 1], budget);
    }
  }

  lemma StartInv(budget: nat)
    ensures Inv(START, budget)
  {
  }

  /** The drain bound.  When `N >= 1` executors are live at the stop, then, in whatever order
      they settle, either the drain or the force-release has happened by
      `budget * N * (N + 1) / 2` after the stop, or that time has not yet passed.  At every
      time at most one timer is armed, and force-release has run at most once. */
  lemma DrainBound(es: seq<Event>, budget: nat)
    requires After(es, budget).Some?
    ensures var s := After(es, budget).value;
            && |s.teardown.armed| <= 1 && s.releases <= 1
            && (s.teardown.stopRequested && s.liveAtStop > 0 ==>
                  var bound := s.stoppedAt + budget * (s.liveAtStop * (s.liveAtStop + 1)) / 2;
                  || (s.drainedAt.Some? && s.drainedAt.value <= bound)
                  || (s.releasedAt.Some? && s.releasedAt.value <= bound)
                  || (s.live > 0 && s.now <= bound))
  {
    RunKeepsInv(es, budget);
    var s := After(es, budget).value;
    TotalIsQuadratic(budget, s.liveAtStop);
    if s.teardown.stopRequested && !s.teardown.forceReleased {
      assert |s.teardown.armed| == |s.teardown.armed.Keys|;
    }
  }

  /** One timer is armed, to run out once each live executor, or at least one, had its turn. */
  predicate OneTurn(s: State, budget: nat, handle: nat) {
    s.teardown.armed == map[handle := s.now + budget * (if s.live > 1 then s.live else 1)]
  }

  /** What every event of a run does to the timers: the first stop, and every executor that
      settles between a stop and a release, leaves one armed, a turn away for each executor
      still live and one turn away when none is; a timer that runs out leaves none; and any
      other event leaves them alone. */
  lemma TurnsExactly(s: State, e: Event, budget: nat)
    requires Inv(s, budget) && Enabled(s, e)
    ensures var t := Happen(s, e, budget);
            if (e.Stop? && !s.teardown.stopRequested) || (e.Settle? && s.teardown.stopRequested && !s.teardown.forceReleased) then
              exists h :: OneTurn(t, budget, h)
            else if e.Fire? then t.teardown.armed == map[] && t.releases == 1 && t.teardown.forceReleased
            else t.teardown == s.teardown && t.releases == s.releases
  {
    var t, h := Happen(s, e, budget), s.teardown.nextHandle;
    if e.Stop? && !s.teardown.stopRequested {
      assert OneTurn(t, budget, h);
    } else if e.Settle? && s.teardown.stopRequested && !s.teardown.forceReleased {
      var old_ := s.teardown.current.value.handle.value;
      assert s.teardown.armed - {old_} == map[];
      assert OneTurn(t, budget, h);
    }
  }

  // ---------- the bound is reached ----------

  /** A run in which every executor but the last settles at the last moment. */
  function Starts(n: nat): seq<Event> {
    if n == 0 then [] else Starts(n - 1) + [Start]
  }

  lemma {:induction false} StartsRun(n: nat, budget: nat)
    ensures After(Starts(n), budget) == Some(START.(live := n))
  {
    if n == 0 {
    } else {
      StartsRun(n - 1, budget);
      assert Starts(n)[..|Starts(n)| - 1] == Starts(n - 1);
    }
  }

  lemma Then(es: seq<Event>, e: Event, budget: nat)
    requires After(es, budget).Some? && Enabled(After(es, budget).value, e)
    ensures After(es + [e], budget) == Some(Happen(After(es, budget).value, e, budget))
  {
    assert (es + [e])[..|es + [e]| - 1] == es;
  }

  lemma {:induction false} WorstRun(n: nat, live: nat, budget: nat) returns (es: seq<Event>)
    requires 1 <= live <= n
    ensures After(es, budget).Some?
    ensures var s := After(es, budget).value;
            && s.teardown.stopRequested && !s.teardown.forceReleased && s.live == live
            && s.stoppedAt == 0 && s.liveAtStop == n && s.drainedAt.None?
            && s.now + Total(budget, live - 1) == Total(budget, n)
            && (forall h :: h in s.teardown.armed ==> s.teardown.armed[h] == s.now)
    decreases n - live
  {
    if live == n {
      StartsRun(n, budget);
      Then(Starts(n), Stop, budget);
      es := Starts(n) + [Stop];
    } else {
      es := WorstRun(n, live + 1, budget);
      RunKeepsInv(es, budget);
      Then(es, Settle, budget);
      es := es + [Settle];
    }
    var s := After(es, budget).value;
    RunKeepsInv(es, budget);
    var deadline := s.teardown.armed[s.teardown.current.value.handle.value];
    Then(es, Wait(deadline), budget);
    es := es + [Wait(deadline)];
  }

  /** No smaller bound would do: for every number of executors there is a run in which one is
      still live, and nothing has been forced, at the very end of the bound. */
  lemma BoundIsReached(n: nat, budget: nat) returns (es: seq<Event>)
    requires n >= 1
    ensures After(es, budget).Some?
    ensures var s := After(es, budget).value;
            && s.teardown.stopRequested && s.liveAtStop == n && s.live == 1 && !s.teardown.forceReleased
            && s.now == s.stoppedAt + budget * (n * (n + 1)) / 2
  {
    es := WorstRun(n, 1, budget);
    TotalIsQuadratic(budget, n);
  }
}
