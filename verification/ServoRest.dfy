/** How long a servo has been at rest when it is detached, in true time instead of 32-bit clock readings. */
module ServoRest {
  import opened CInteger
  import opened ServoMotion
  import opened ServoSafety
  import opened ServoAngular

  /** The limit check of the poll stops the servo. */
  predicate LimitStops(c: Config, s: Servo, e: Event) {
    e.Poll? && s.attached && c.kind != ANGULAR && AtLimit(c, s, e.up, e.down)
  }

  /** Event `e` at the true time `t`, not before `before`. `stop` is when a stop inside a poll reads the
      clock: a limit switch stops before the poll takes its own time, the end of a timed move after it. */
  predicate OnClock(c: Config, s: Servo, e: Event, before: nat, t: nat, stop: nat) {
    && before <= t && e.now == Tick(t)
    && if !e.Poll? then stop == t
       else e.stopTime == Tick(stop) && if LimitStops(c, s, e) then before <= stop <= t else t <= stop
  }

  /** A moment of a run: the true times of one event. */
  datatype Moment = Moment(t: nat, stop: nat)

  function Latest(times: seq<Moment>): nat {
    if times == [] then 0
    else
      var m := times[|times| - 1];
      if m.t < m.stop then m.stop else m.t
  }

  /** A run from `s` whose clock readings follow a true clock that never goes back. */
  predicate Clocked(c: Config, s: Servo, events: seq<Event>, times: seq<Moment>) {
    && |events| == |times|
    && (events == [] ||
        (var m := |events| - 1;
         && Clocked(c, s, events[..m], times[..m])
         && OnClock(c, Run(c, s, events[..m]), events[m], Latest(times[..m]), times[m].t, times[m].stop)))
  }

  /** The clock of the servo never shows more than what has really passed. */
  lemma ClockShowsLess(before: nat, t: nat)
    requires before <= t
    ensures Since(Tick(t), Tick(before)) <= t - before
  {
    var (q, r) := (t / TWO32, before / TWO32);
    var d := t % TWO32 - before % TWO32;
    assert t - before == d + TWO32 * (q - r) && q >= r;
    if d < 0 {
      assert q > r;
    }
  }

  // ----- One step -----

  /** The servo was at rest and waiting already, or this event brought it to rest. */
  predicate RestFrom(c: Config, s: Servo, e: Event, u: Servo) {
    || (s.waiting && !s.moving && u.reachedAt == s.reachedAt)
    || u.reachedAt == e.now
    || (&& e.Poll? && u.reachedAt == e.stopTime
        && (LimitStops(c, s, e) || (c.kind != ANGULAR && u.currentUs != c.midUs)))
  }

  lemma TendRest(c: Config, s: Servo, now: nat, stopTime: nat)
    requires Safe(s) && s.attached
    ensures var u := Tend(c, s, now, stopTime);
            u.waiting || !u.attached ==>
              && !u.moving
              && (|| (s.waiting && u.reachedAt == s.reachedAt) || u.reachedAt == now
                  || (s.moving && c.kind != ANGULAR && u.reachedAt == stopTime && u.currentUs != c.midUs))
  {
  }

  lemma StepRest(c: Config, s: Servo, e: Event)
    requires Safe(s)
    ensures var u := Step(c, s, e);
            u.waiting || (s.attached && !u.attached) ==> !u.moving && RestFrom(c, s, e, u)
  {
    if e.Poll? && s.attached {
      var l := LimitCheck(c, s, e.stopTime, e.up, e.down).(lastPoll := e.now);
      LimitKeeps(c, s, e.stopTime, e.up, e.down);
      TendRest(c, l, e.now, e.stopTime);
    }
  }

  // ----- Runs -----

  /** Event `i` of the run read `rest` from the true clock, and the servo has not moved since. */
  predicate AtRestSince(c: Config, s: Servo, events: seq<Event>, times: seq<Moment>, i: nat, rest: nat) {
    && i < |events| == |times| && (rest == times[i].t || rest == times[i].stop)
    && forall j | i < j <= |events| :: !Run(c, s, events[..j]).moving
  }

  lemma StillAtRest(c: Config, s: Servo, events: seq<Event>, times: seq<Moment>, i: nat, rest: nat)
    requires events != [] && |events| == |times| && !Run(c, s, events).moving
    requires AtRestSince(c, s, events[..|events| - 1], times[..|events| - 1], i, rest)
    ensures AtRestSince(c, s, events, times, i, rest)
  {
    var front := events[..|events| - 1];
    forall j | i < j <= |events| ensures !Run(c, s, events[..j]).moving {
      if j < |events| {
        assert front[..j] == events[..j];
      } else {
        assert events[..j] == events;
      }
    }
  }

  lemma NowAtRest(c: Config, s: Servo, events: seq<Event>, times: seq<Moment>, rest: nat)
    requires events != [] && |events| == |times| && !Run(c, s, events).moving
    requires rest == times[|events| - 1].t || rest == times[|events| - 1].stop
    ensures AtRestSince(c, s, events, times, |events| - 1, rest)
  {
    assert events[..|events|] == events;
  }

  /** While a servo waits to be detached it has been at rest since the moment it remembers. */
  lemma {:induction false} WaitingIsRest(c: Config, brightness: nat, events: seq<Event>, times: seq<Moment>)
      returns (i: nat, rest: nat)
    requires Clocked(c, Initial(c, brightness), events, times)
    ensures var u := Run(c, Initial(c, brightness), events);
            u.waiting ==> && AtRestSince(c, Initial(c, brightness), events, times, i, rest)
                          && rest <= Latest(times) && u.reachedAt == Tick(rest)
    decreases |events|
  {
    i, rest := 0, 0;
    if events != [] {
      var init := Initial(c, brightness);
      var m := |events| - 1;
      var (s, u, e) := (Run(c, init, events[..m]), Run(c, init, events), events[m]);
      i, rest := WaitingIsRest(c, brightness, events[..m], times[..m]);
      RunSafe(c, brightness, events[..m]);
      StepRest(c, s, e);
      if u.waiting {
        if s.waiting && u.reachedAt == s.reachedAt {
          StillAtRest(c, init, events, times, i, rest);
        } else {
          i, rest := m, if u.reachedAt == e.now then times[m].t else times[m].stop;
          NowAtRest(c, init, events, times, rest);
        }
      }
    }
  }

  /** A servo is detached only after it has really been at rest for the detach delay. */
  lemma DetachedAfterRest(c: Config, brightness: nat, events: seq<Event>, times: seq<Moment>)
      returns (i: nat, rest: nat)
    requires Clocked(c, Initial(c, brightness), events, times) && events != []
    requires Run(c, Initial(c, brightness), events[..|events| - 1]).attached
    requires !Run(c, Initial(c, brightness), events).attached
    ensures AtRestSince(c, Initial(c, brightness), events, times, i, rest)
    ensures rest + c.detachDelayMs <= times[|events| - 1].t && c.detachDelayMs > 0
  {
    var init := Initial(c, brightness);
    var m := |events| - 1;
    var (s, u, e) := (Run(c, init, events[..m]), Run(c, init, events), events[m]);
    i, rest := WaitingIsRest(c, brightness, events[..m], times[..m]);
    RunSafe(c, brightness, events[..m]);
    StepRest(c, s, e);
    StepAttachment(c, s, e);
    if s.waiting && u.reachedAt == s.reachedAt {
      StillAtRest(c, init, events, times, i, rest);
    } else {
      i, rest := m, if u.reachedAt == e.now then times[m].t else times[m].stop;
      NowAtRest(c, init, events, times, rest);
    }
    ClockShowsLess(rest, times[m].t);
  }

  /** A poll that is not skipped and no limit switch, within one wrap-around of the moment of rest: it
      detaches the servo if and only if the delay is over, and a continuous servo stands still. */
  lemma DetachesIff(c: Config, s: Servo, rest: nat, t: nat, stopTime: nat, up: bool, down: bool)
    requires Safe(s) && s.waiting && s.reachedAt == Tick(rest) && rest <= t < rest + TWO32
    requires Effective(s, Tick(t)) && (c.kind == ANGULAR || !AtLimit(c, s, up, down))
    ensures !OnPoll(c, s, Tick(t), stopTime, up, down).attached
            <==> && c.detachDelayMs > 0 && t - rest >= c.detachDelayMs
                 && (c.kind == ANGULAR || (c.kind == CONTINUOUS && s.currentUs == c.midUs))
    ensures OnPoll(c, s, Tick(t), stopTime, up, down).waiting
            <==> c.detachDelayMs == 0 || t - rest < c.detachDelayMs
  {
    ElapsedTime(rest, t);
  }
}
