/** How an angular servo moves, across the wrap-around of the millisecond clock. */
module ServoAngular {
  import opened CInteger
  import opened ServoMotion
  import opened ServoMapping
  import opened ServoSafety

  /** `y` is on the way from `x` to `target`. */
  predicate Toward(x: int, y: int, target: int) {
    x <= y <= target || x >= y >= target
  }

  /** The duration keeps the interpolation within 32 bits. */
  predicate Timed(s: Servo) {
    Abs(s.targetUs - s.startUs) * s.moveDuration < TWO32 / 2
  }

  lemma PositionRising(d: nat, r: nat, e: nat, f: nat)
    requires e <= f < d && r * d < TWO32 / 2
    ensures Long(e * r) == e * r && Long(f * r) == f * r && Long(-(e * r)) == -(e * r) && Long(-(f * r)) == -(f * r)
    ensures 0 <= e * r / d <= f * r / d <= r
  {
    Products(e, f, d, r);
    QuotientOrder(e * r, f * r, d);
    QuotientOrder(f * r, d * r, d);
    QuotientIs(d * r, d, r, 0);
  }

  lemma PositionIs(s: Servo, e: nat)
    requires Timed(s) && e < s.moveDuration
    ensures var r := Abs(s.targetUs - s.startUs);
            Position(s, e) == if s.targetUs >= s.startUs then s.startUs + e * r / s.moveDuration
                              else s.startUs - e * r / s.moveDuration
  {
    var r := Abs(s.targetUs - s.startUs);
    PositionRising(s.moveDuration, r, e, e);
    if s.targetUs < s.startUs {
      assert e * (s.targetUs - s.startUs) == -(e * r);
    }
  }

  /** Interpolation goes from start to target without turning back. */
  lemma PositionToward(s: Servo, e: nat, f: nat)
    requires Timed(s) && e <= f
    ensures Toward(s.startUs, Position(s, e), s.targetUs)
    ensures Toward(Position(s, e), Position(s, f), s.targetUs)
  {
    var r := Abs(s.targetUs - s.startUs);
    if e < s.moveDuration {
      PositionIs(s, e);
      PositionRising(s.moveDuration, r, e, e);
      if f < s.moveDuration {
        PositionIs(s, f);
        PositionRising(s.moveDuration, r, e, f);
      }
    }
  }

  // ----- A command -----

  /** A command starts from the current position, takes its share of the transition time, and goes to the
      pulse of the brightness. */
  lemma CommandStarts(c: Config, s: Servo, brightness: nat, now: nat)
    requires AngularProper(c) && InRange(c, s) && !s.firstSync
    ensures var t := Command(c, s, brightness, now);
            && t.startUs == s.currentUs && t.currentUs == s.currentUs && t.targetUs == c.Target(Scale(brightness))
            && t.moving && t.attached && t.moveStart == now && t.pulses == s.pulses
            && t.moveDuration <= c.transitionMs && Timed(t)
            && (c.minUs < c.maxUs ==>
                  t.moveDuration == Abs(t.targetUs - s.currentUs) * c.transitionMs / (c.maxUs - c.minUs))
    ensures var t := Command(c, s, brightness, now);
            var (x, b) := (if brightness < 1023 then brightness else 1023, t.targetBrightness);
            && 1023 * b <= 255 * x < 1023 * (b + 1)
            && t.targetUs == if c.channel == 2 then (if (b > 0) != c.inverted then c.maxUs else c.minUs)
                             else c.minUs + (if c.inverted then 255 - b else b) * (c.maxUs - c.minUs) / 255
  {
    TargetInRange(c, Scale(brightness));
    ScaleIs(brightness);
    AngularTargetIs(c, Scale(brightness));
    DurationIs(c, s.currentUs, c.Target(Scale(brightness)), s.currentBrightness, Scale(brightness));
  }

  lemma DurationIs(c: Config, start: int, target: int, current: nat, brightness: nat)
    requires AngularProper(c) && Within(c, start) && Within(c, target)
    ensures var d := Duration(c, start, target, current, brightness);
            && d <= c.transitionMs && Abs(target - start) * d < TWO32 / 2
            && (c.minUs < c.maxUs ==> d == Abs(target - start) * c.transitionMs / (c.maxUs - c.minUs))
  {
    var (delta, span) := (Abs(target - start), c.maxUs - c.minUs);
    assert c.Span() == span;
    if span > 0 {
      ShareOf(delta, c.transitionMs, span);
    }
  }

  /** `delta * time / span` is at most the time, and no more than its share of it. */
  lemma ShareOf(delta: nat, time: nat, span: nat)
    requires delta <= span && span > 0 && span * time < TWO32 / 2
    ensures (delta * time) % TWO32 == delta * time
    ensures delta * time / span <= time && delta * (delta * time / span) < TWO32 / 2
  {
    Products(delta, span, span, time);
    QuotientOrder(delta * time, span * time, span);
    QuotientIs(span * time, span, time, 0);
    ProductOrder(delta * time / span, time, delta);
  }

  // ----- All runs: every pulse is in range -----

  predicate Within(c: Config, us: int) {
    c.minUs <= us <= c.maxUs
  }

  predicate InRange(c: Config, s: Servo) {
    && Safe(s)
    && Within(c, s.currentUs) && Within(c, s.targetUs) && Within(c, s.startUs)
    && (s.moving ==> Timed(s))
    && forall i | 0 <= i < |s.pulses| :: Within(c, s.pulses[i])
  }

  lemma CommandInRange(c: Config, s: Servo, brightness: nat, now: nat)
    requires AngularProper(c) && InRange(c, s)
    ensures InRange(c, Command(c, s, brightness, now))
  {
    TargetInRange(c, Scale(brightness));
    if !s.firstSync {
      CommandStarts(c, s, brightness, now);
    }
  }

  lemma PollInRange(c: Config, s: Servo, now: nat, stopTime: nat, up: bool, down: bool)
    requires AngularProper(c) && InRange(c, s)
    ensures InRange(c, OnPoll(c, s, now, stopTime, up, down))
  {
    PollSafe(c, s, now, stopTime, up, down);
    if s.moving {
      var e := Since(now, s.moveStart);
      PositionToward(s, e, e);
    }
  }

  // ----- One move, poll by poll -----

  /** On the move that began at true time `start` from `from`: so far at some time up to `elapsed`, or
      arrived. */
  predicate OnCourse(c: Config, s: Servo, move: Servo, start: nat, elapsed: nat) {
    && Timed(move) && s.targetUs == move.targetUs && s.startUs == move.startUs
    && (s.currentUs == move.startUs || s.currentUs == Position(move, elapsed))
    && if s.moving then s.attached && !s.waiting && s.moveStart == Tick(start) && s.moveDuration == move.moveDuration
       else s.currentUs == move.targetUs
  }

  /** True times less than a wrap-around apart. */
  lemma ElapsedTime(start: nat, t: nat)
    requires start <= t < start + TWO32
    ensures Since(Tick(t), Tick(start)) == t - start
  {
    var (q, r) := (t / TWO32, start / TWO32);
    assert (t % TWO32 - start % TWO32) == (t - start) - TWO32 * (q - r);
    QuotientIs(t % TWO32 - start % TWO32, TWO32, -(q - r), t - start);
  }

  lemma SamePosition(s: Servo, move: Servo, e: nat)
    requires s.startUs == move.startUs && s.targetUs == move.targetUs && s.moveDuration == move.moveDuration
    ensures Position(s, e) == Position(move, e)
  {
  }

  /** What a poll that is not skipped does to a moving servo. */
  lemma TendMoving(c: Config, s: Servo, now: nat, stopTime: nat)
    requires c.kind == ANGULAR && s.moving && s.attached && !s.waiting
    ensures var u := Tend(c, s, now, stopTime);
            && u.currentUs == Position(s, Since(now, s.moveStart))
            && u.moving == (Since(now, s.moveStart) < s.moveDuration) && (u.moving ==> u.attached && !u.waiting)
            && u.targetUs == s.targetUs && u.startUs == s.startUs
            && u.moveStart == s.moveStart && u.moveDuration == s.moveDuration
            && u.pulses == (if s.lastWrittenUs == u.currentUs then s.pulses else s.pulses + [u.currentUs])
            && u.lastWrittenUs == u.currentUs && (!u.moving ==> u.attached && u.waiting && u.reachedAt == now)
  {
  }

  lemma TendCourse(c: Config, s: Servo, move: Servo, start: nat, elapsed: nat, t: nat, stopTime: nat)
    requires c.kind == ANGULAR && OnCourse(c, s, move, start, elapsed) && s.moving && start <= t < start + TWO32
    ensures var u := Tend(c, s, Tick(t), stopTime);
            && OnCourse(c, u, move, start, t - start) && u.currentUs == Position(move, t - start)
            && u.moving == (t - start < move.moveDuration)
            && (u.pulses == s.pulses || u.pulses == s.pulses + [u.currentUs])
  {
    ElapsedTime(start, t);
    SamePosition(s, move, t - start);
    TendMoving(c, s, Tick(t), stopTime);
    assert t - start >= move.moveDuration ==> Position(move, t - start) == move.targetUs;
  }

  /** One poll of a move: the servo goes on toward the target, and a poll that is not skipped and not
      before the end of the move arrives. */
  lemma CoursePoll(c: Config, s: Servo, move: Servo, start: nat, elapsed: nat, t: nat,
                   stopTime: nat, up: bool, down: bool)
      returns (after: nat)
    requires c.kind == ANGULAR && OnCourse(c, s, move, start, elapsed)
    requires start + elapsed <= t < start + TWO32
    ensures var u := OnPoll(c, s, Tick(t), stopTime, up, down);
            && elapsed <= after <= t - start && OnCourse(c, u, move, start, after)
            && (u.pulses == s.pulses || u.pulses == s.pulses + [u.currentUs])
            && Toward(s.currentUs, u.currentUs, move.targetUs)
            && (u.moving ==> s.moving && !(Effective(s, Tick(t)) && t - start >= move.moveDuration))
  {
    after := elapsed;
    PositionToward(move, elapsed, t - start);
    PositionToward(move, 0, t - start);
    if s.moving && Effective(s, Tick(t)) {
      after := t - start;
      TendCourse(c, s.(lastPoll := Tick(t)), move, start, elapsed, t, stopTime);
    }
  }

  /** Pulses from `n` on go from `from` toward the target without turning back, as far as `now`. */
  predicate AllToward(pulses: seq<int>, n: nat, from: int, now: int, target: int) {
    && n <= |pulses| && Toward(from, now, target)
    && (forall i {:trigger pulses[i]} | n <= i < |pulses| ::
          Toward(from, pulses[i], target) && Toward(pulses[i], now, target))
    && (forall i, j {:trigger pulses[i], pulses[j]} | n <= i < j < |pulses| :: Toward(pulses[i], pulses[j], target))
  }

  lemma MoreToward(pulses: seq<int>, n: nat, from: int, now: int, next: int, target: int)
    requires AllToward(pulses, n, from, now, target) && Toward(now, next, target)
    ensures AllToward(pulses, n, from, next, target) && AllToward(pulses + [next], n, from, next, target)
  {
    var p := pulses + [next];
    forall i | n <= i < |p| ensures Toward(from, p[i], target) && Toward(p[i], next, target) {
      assert i < |pulses| ==> p[i] == pulses[i];
    }
    forall i, j | n <= i < j < |p| ensures Toward(p[i], p[j], target) {
      assert j < |pulses| ==> Toward(pulses[i], pulses[j], target);
    }
  }

  /** Polls at true times `times`, in order, within one wrap-around of the start. */
  predicate PollsAt(events: seq<Event>, times: seq<nat>, start: nat) {
    && |events| == |times|
    && (forall i | 0 <= i < |events| ::
         events[i].Poll? && events[i].now == Tick(times[i]) && start <= times[i] < start + TWO32)
    && (forall i | 0 < i < |times| :: times[i - 1] <= times[i])
  }

  /** A poll that is not skipped at or after the end of the move. */
  predicate ArrivesAt(c: Config, move: Servo, start: nat, events: seq<Event>, times: seq<nat>, k: nat)
    requires k < |events| == |times| && events[k].Poll? && start <= times[k]
  {
    Effective(Run(c, move, events[..k]), Tick(times[k])) && times[k] - start >= move.moveDuration
  }

  /** Whether poll `k` arrives depends on the polls up to `k` only. */
  lemma ArrivesEarlier(c: Config, move: Servo, start: nat, events: seq<Event>, times: seq<nat>, m: nat, k: nat)
    requires k < m <= |events| == |times| && events[k].Poll? && start <= times[k]
    ensures ArrivesAt(c, move, start, events[..m], times[..m], k) == ArrivesAt(c, move, start, events, times, k)
  {
    assert events[..m][..k] == events[..k];
  }

  /** A whole move, however it is polled and wherever the clock wraps: the pulses go from start to target
      without turning back, and the first poll at or after the end of the move that is not skipped
      arrives; after it the servo stays. */
  lemma {:induction false} WholeMove(c: Config, move: Servo, start: nat, events: seq<Event>, times: seq<nat>)
      returns (elapsed: nat)
    requires c.kind == ANGULAR && OnCourse(c, move, move, start, 0) && move.currentUs == move.startUs
    requires PollsAt(events, times, start)
    ensures var u := Run(c, move, events);
            && OnCourse(c, u, move, start, elapsed)
            && (elapsed == 0 || (events != [] && start + elapsed <= times[|times| - 1]))
            && AllToward(u.pulses, |move.pulses|, move.startUs, u.currentUs, move.targetUs)
            && (u.moving ==> forall k | 0 <= k < |events| :: !ArrivesAt(c, move, start, events, times, k))
    decreases |events|
  {
    elapsed := 0;
    if events != [] {
      var m := |events| - 1;
      var e := events[m];
      var before := WholeMove(c, move, start, events[..m], times[..m]);
      var s := Run(c, move, events[..m]);
      elapsed := CoursePoll(c, s, move, start, before, times[m], e.stopTime, e.up, e.down);
      MoreToward(s.pulses, |move.pulses|, move.startUs, s.currentUs, Run(c, move, events).currentUs, move.targetUs);
      forall k | 0 <= k < m && s.moving ensures !ArrivesAt(c, move, start, events, times, k) {
        ArrivesEarlier(c, move, start, events, times, m, k);
      }
    } else {
      PositionToward(move, 0, 0);
    }
  }

  /** From the command to the last poll: in any reachable state, a command makes the servo go from where
      it is to the target of the brightness, without turning back and in at most the transition time. */
  lemma CommandMoves(c: Config, s: Servo, brightness: nat, start: nat, events: seq<Event>, times: seq<nat>)
    requires AngularProper(c) && InRange(c, s) && !s.firstSync && PollsAt(events, times, start)
    ensures var move := Command(c, s, brightness, Tick(start));
            var u := Run(c, move, events);
            && AllToward(u.pulses, |s.pulses|, s.currentUs, u.currentUs, c.Target(Scale(brightness)))
            && (!u.moving ==> u.currentUs == c.Target(Scale(brightness)))
            && (u.moving ==> forall k | 0 <= k < |events| && times[k] - start >= c.transitionMs ::
                               !Effective(Run(c, move, events[..k]), Tick(times[k])))
  {
    var move := Command(c, s, brightness, Tick(start));
    CommandStarts(c, s, brightness, Tick(start));
    var elapsed := WholeMove(c, move, start, events, times);
    forall k | 0 <= k < |events| && times[k] - start >= c.transitionMs && Run(c, move, events).moving
      ensures !Effective(Run(c, move, events[..k]), Tick(times[k]))
    {
      assert !ArrivesAt(c, move, start, events, times, k);
    }
  }
}
